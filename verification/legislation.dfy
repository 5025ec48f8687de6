/**
  The parts of the `Norma` model the pipeline reads: its identifying fields,
  its two optional dates, `__str__` and `is_em_vacatio_legis`.

  A date is a (year, month, day) triple compared lexicographically, which is
  how Python compares `datetime.date` values; "today" is a parameter.
*/
module Legislation {
  import opened Wrappers
  import opened PyText

  // ---------------------------------------------------------------------------
  // Dates

  datatype Date = Date(year: nat, month: nat, day: nat)

  /** A calendar date as `datetime.date` accepts it (day bounded by 31 only). */
  predicate ValidDate(d: Date) {
    1 <= d.year <= 9999 && 1 <= d.month <= 12 && 1 <= d.day <= 31
  }

  /** `a <= b` on dates: year first, then month, then day. */
  predicate DateLe(a: Date, b: Date) {
    a.year < b.year
    || (a.year == b.year && a.month < b.month)
    || (a.year == b.year && a.month == b.month && a.day <= b.day)
  }

  /** `a < b` on dates. */
  predicate DateLt(a: Date, b: Date) {
    DateLe(a, b) && a != b
  }

  /** An order-preserving integer code for a date (not a count of days),
      used as an independent reference for the order: months and days never
      exceed 12 and 31 in a valid date, so the code has room for both. */
  function Ordinal(d: Date): int {
    (d.year * 13 + d.month) * 32 + d.day
  }

  /** On valid dates the lexicographic order is the order of the ordinals. */
  lemma DateLeOrdinal(a: Date, b: Date)
    requires ValidDate(a) && ValidDate(b)
    ensures DateLe(a, b) <==> Ordinal(a) <= Ordinal(b)
    ensures a == b <==> Ordinal(a) == Ordinal(b)
  {
    var ma := a.year * 13 + a.month;
    var mb := b.year * 13 + b.month;
    assert a.year < b.year ==> ma < mb;
    assert a.year > b.year ==> ma > mb;
    assert ma < mb ==> Ordinal(a) < Ordinal(b);
    assert ma > mb ==> Ordinal(a) > Ordinal(b);
  }

  /** The date order is a total order. */
  lemma DateLeTotalOrder(a: Date, b: Date, c: Date)
    ensures DateLe(a, a)
    ensures DateLe(a, b) && DateLe(b, a) ==> a == b
    ensures DateLe(a, b) && DateLe(b, c) ==> DateLe(a, c)
    ensures DateLe(a, b) || DateLe(b, a)
  {
  }

  /** `str(date)`: ISO `YYYY-MM-DD`. */
  function DateStr(d: Date): (r: string)
    ensures |r| >= 10
  {
    ZeroPad(d.year, 4) + "-" + ZeroPad(d.month, 2) + "-" + ZeroPad(d.day, 2)
  }

  /** On a valid date `str(date)` is ten characters whose three fields read
      back to the year, the month and the day. */
  lemma DateStrReadBack(d: Date)
    requires ValidDate(d)
    ensures var s := DateStr(d);
      && |s| == 10 && s[4] == '-' && s[7] == '-'
      && ParseNat(s[..4]) == d.year && ParseNat(s[5..7]) == d.month && ParseNat(s[8..]) == d.day
  {
    assert Pow10(4) == 10000 && Pow10(2) == 100 by {
      assert Pow10(1) == 10;
    }
    ZeroPadReadBack(d.year, 4);
    ZeroPadReadBack(d.month, 2);
    ZeroPadReadBack(d.day, 2);
    var y, m, dd := ZeroPad(d.year, 4), ZeroPad(d.month, 2), ZeroPad(d.day, 2);
    var s := DateStr(d);
    assert s == y + "-" + m + "-" + dd;
    assert s[..4] == y;
    assert s[5..7] == m;
    assert s[8..] == dd;
  }

  // ---------------------------------------------------------------------------
  // Norma

  datatype Norma = Norma(
    tipo: string,
    numero: string,
    ano: int,
    ementa: string,
    dataPublicacao: Option<Date>,
    dataVigencia: Option<Date>,
    textoOriginal: string)

  /** `Norma.__str__`: `"{tipo} {numero}/{ano}"`. */
  function NormaStr(n: Norma): string {
    n.tipo + " " + n.numero + "/" + IntStr(n.ano)
  }

  /** `str(ano)` never holds a slash. */
  lemma IntStrNoSlash(i: int)
    ensures '/' !in IntStr(i)
  {
    var r := IntStr(i);
    var d := if i < 0 then NatStr(-i) else NatStr(i);
    assert forall k :: 0 <= k < |d| ==> IsDigit(d[k]);
    assert forall k :: 0 <= k < |r| ==> r[k] == '-' || IsDigit(r[k]);
  }

  /** `__str__` reads back: what follows the last `'/'` is the year, and what
      precedes it is the type and the number (even if the number has a slash). */
  lemma NormaStrReadBack(n: Norma)
    ensures var s := NormaStr(n); var k := AfterLast(s, '/');
      && k > 0
      && s[..k - 1] == n.tipo + " " + n.numero
      && ParseInt(s[k..]) == n.ano
  {
    var s := NormaStr(n);
    var head := n.tipo + " " + n.numero;
    var y := IntStr(n.ano);
    assert s == head + ['/'] + y;
    IntStrNoSlash(n.ano);
    AfterLastSplit(head, '/', y);
    ParseIntStr(n.ano);
  }

  /** `is_em_vacatio_legis`: published but not yet in force on `today`; false
      when either date is missing. */
  predicate IsEmVacatioLegis(n: Norma, today: Date) {
    if n.dataPublicacao.None? || n.dataVigencia.None? then false
    else DateLe(n.dataPublicacao.value, today) && DateLt(today, n.dataVigencia.value)
  }

  /** The vacatio period is the half-open interval from publication to the
      effective date: missing dates, days from the effective date on, and an
      effective date not after the publication all rule it out. */
  lemma VacatioInterval(n: Norma, today: Date)
    ensures n.dataPublicacao.None? || n.dataVigencia.None? ==> !IsEmVacatioLegis(n, today)
    ensures n.dataVigencia.Some? && DateLe(n.dataVigencia.value, today) ==> !IsEmVacatioLegis(n, today)
    ensures n.dataPublicacao.Some? && n.dataVigencia.Some? && DateLe(n.dataVigencia.value, n.dataPublicacao.value) ==>
              !IsEmVacatioLegis(n, today)
    ensures n.dataPublicacao.Some? && DateLt(today, n.dataPublicacao.value) ==> !IsEmVacatioLegis(n, today)
  {
    if IsEmVacatioLegis(n, today) {
      var p, v := n.dataPublicacao.value, n.dataVigencia.value;
      DateLeTotalOrder(p, today, v);
      DateLeTotalOrder(today, v, p);
      DateLeTotalOrder(v, today, v);
    }
  }

  /** Vacatio holds on every day between two days on which it holds. */
  lemma VacatioConvex(n: Norma, d1: Date, d2: Date, d: Date)
    requires IsEmVacatioLegis(n, d1) && IsEmVacatioLegis(n, d2)
    requires DateLe(d1, d) && DateLe(d, d2)
    ensures IsEmVacatioLegis(n, d)
  {
    var p, v := n.dataPublicacao.value, n.dataVigencia.value;
    DateLeTotalOrder(p, d1, d);
    DateLeTotalOrder(d, d2, v);
    DateLeTotalOrder(v, d, d2);
  }

  /** With both dates set and valid, vacatio holds exactly on the days whose
      ordinal lies in [publication, effective date). */
  lemma VacatioOrdinal(n: Norma, today: Date)
    requires n.dataPublicacao.Some? && n.dataVigencia.Some?
    requires ValidDate(n.dataPublicacao.value) && ValidDate(n.dataVigencia.value) && ValidDate(today)
    ensures IsEmVacatioLegis(n, today) <==>
              Ordinal(n.dataPublicacao.value) <= Ordinal(today) < Ordinal(n.dataVigencia.value)
  {
    DateLeOrdinal(n.dataPublicacao.value, today);
    DateLeOrdinal(today, n.dataVigencia.value);
  }
}
