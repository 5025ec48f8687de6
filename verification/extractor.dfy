/**
  `LegalNERExtractor`: finds the occurrences of the six action verbs, cuts a
  window of at most 200 characters after each one, collects the legal
  references found in that window and turns each (occurrence, reference) pair
  into an alteration event; an occurrence with no reference yields one
  low-confidence fallback event.

  The regular expressions are abstract: `Matchers` holds one function per
  pattern, returning what `finditer` would yield on a string, in match order.
*/
module Extractor {
  import opened Wrappers
  import opened PyText
  import opened Sorting

  // ---------------------------------------------------------------------------
  // Actions

  /** The keys of `ACTION_PATTERNS`, in the dictionary's order. */
  datatype ActionKind = Revoga | Altera | Adiciona | Substitui | Regulamenta | Referencia

  /** Position of the kind in `ACTION_PATTERNS`. */
  function ActionRank(a: ActionKind): int {
    match a
    case Revoga => 0
    case Altera => 1
    case Adiciona => 2
    case Substitui => 3
    case Regulamenta => 4
    case Referencia => 5
  }

  /** The name stored in an event's `acao`. */
  function ActionName(a: ActionKind): string {
    match a
    case Revoga => "REVOGA"
    case Altera => "ALTERA"
    case Adiciona => "ADICIONA"
    case Substitui => "SUBSTITUI"
    case Regulamenta => "REGULAMENTA"
    case Referencia => "REFERENCIA"
  }

  /** The order `self.action_regex.items()` iterates in. */
  const ActionOrder: seq<ActionKind> := [Revoga, Altera, Adiciona, Substitui, Regulamenta, Referencia]

  /** A regex match span `(start, end)`. */
  datatype Span = Span(start: nat, end: nat)

  // ---------------------------------------------------------------------------
  // Abstract matchers

  /** A `LEI_PATTERN` match: the whole match, group 1 (the law type), group 2
      (the number) and group 3 (the four-digit year, empty when absent). */
  datatype LawMatch = LawMatch(text: string, kind: string, number: string, year: string)

  /** A match of a dispositivo pattern: the whole match and its number group
      (group 2 for articles and paragraphs, group 1 for incisos and alíneas). */
  datatype NumberMatch = NumberMatch(text: string, group: string)

  datatype Matchers = Matchers(
    actions: (ActionKind, string) -> seq<Span>,
    law: string -> seq<LawMatch>,
    selfRef: string -> seq<string>,
    article: string -> seq<NumberMatch>,
    paragraph: string -> seq<NumberMatch>,
    inciso: string -> seq<NumberMatch>,
    alinea: string -> seq<NumberMatch>)

  // ---------------------------------------------------------------------------
  // _detect_actions

  /** One detected action: kind, span and `match.group(0)`. */
  datatype Occurrence = Occurrence(action: ActionKind, span: Span, text: string)

  function OccurrenceRank(o: Occurrence): int {
    ActionRank(o.action)
  }

  /** Kinds listed in strictly increasing rank. */
  predicate StrictlyRanked(kinds: seq<ActionKind>) {
    forall i, j :: 0 <= i < j < |kinds| ==> ActionRank(kinds[i]) < ActionRank(kinds[j])
  }

  /** The matches of one action kind, in match order. */
  function OccurrencesOf(m: Matchers, texto: string, a: ActionKind): (r: seq<Occurrence>)
    ensures |r| == |m.actions(a, texto)|
    ensures forall i :: 0 <= i < |r| ==>
              r[i].action == a && r[i].span == m.actions(a, texto)[i]
              && r[i].text == PySlice(texto, r[i].span.start, r[i].span.end)
  {
    var spans := m.actions(a, texto);
    seq(|spans|, i requires 0 <= i < |spans| => Occurrence(a, spans[i], PySlice(texto, spans[i].start, spans[i].end)))
  }

  /** The total number of matches of the given kinds. */
  function MatchCount(m: Matchers, texto: string, kinds: seq<ActionKind>): nat {
    if |kinds| == 0 then 0 else |m.actions(kinds[0], texto)| + MatchCount(m, texto, kinds[1..])
  }

  /** Occurrences of each kind in turn, each kind's in match order. */
  function DetectFrom(m: Matchers, texto: string, kinds: seq<ActionKind>): seq<Occurrence> {
    FlatMap((a: ActionKind) => OccurrencesOf(m, texto, a), kinds)
  }

  /** One occurrence per match of the listed kinds. */
  lemma {:induction false} DetectFromCount(m: Matchers, texto: string, kinds: seq<ActionKind>)
    ensures |DetectFrom(m, texto, kinds)| == MatchCount(m, texto, kinds)
  {
    if |kinds| > 0 {
      DetectFromCount(m, texto, kinds[1..]);
    }
  }

  /** Every occurrence is a match of its own kind, which is one of the listed
      kinds; with the kinds in increasing rank the occurrences come grouped by
      kind in that order. */
  lemma DetectFromShape(m: Matchers, texto: string, kinds: seq<ActionKind>)
    ensures AllOf(DetectFrom(m, texto, kinds), (o: Occurrence) => o.action in kinds && o.span in m.actions(o.action, texto))
    ensures StrictlyRanked(kinds) ==> SortedBy(DetectFrom(m, texto, kinds), OccurrenceRank)
  {
    var f := (a: ActionKind) => OccurrencesOf(m, texto, a);
    forall i | 0 <= i < |kinds|
      ensures AllOf(f(kinds[i]), (o: Occurrence) => o.action in kinds && o.span in m.actions(o.action, texto))
    {
      var occs := OccurrencesOf(m, texto, kinds[i]);
      assert forall k :: 0 <= k < |occs| ==> occs[k].action == kinds[i] && occs[k].span in m.actions(kinds[i], texto);
    }
    FlatMapAll(f, kinds, (o: Occurrence) => o.action in kinds && o.span in m.actions(o.action, texto));
    if StrictlyRanked(kinds) {
      forall i, k | 0 <= i < |kinds| && 0 <= k < |f(kinds[i])|
        ensures OccurrenceRank(f(kinds[i])[k]) == ActionRank(kinds[i])
      {
        assert f(kinds[i])[k].action == kinds[i];
      }
      FlatMapSorted(f, kinds, ActionRank, OccurrenceRank);
    }
  }

  lemma ActionOrderRanked()
    ensures StrictlyRanked(ActionOrder)
  {
    assert forall i :: 0 <= i < |ActionOrder| ==> ActionRank(ActionOrder[i]) == i;
  }

  /** `_detect_actions`: every action match, grouped by kind in the declared
      order, each group in match order. */
  function DetectActions(m: Matchers, texto: string): (r: seq<Occurrence>)
    ensures |r| == MatchCount(m, texto, ActionOrder)
    ensures SortedBy(r, OccurrenceRank)
    ensures forall i :: 0 <= i < |r| ==> r[i].span in m.actions(r[i].action, texto)
  {
    ActionOrderRanked();
    DetectFromCount(m, texto, ActionOrder);
    DetectFromShape(m, texto, ActionOrder);
    DetectFrom(m, texto, ActionOrder)
  }

  /** No occurrence at all exactly when no action pattern matches. */
  lemma {:induction false} NoMatchesNoOccurrences(m: Matchers, texto: string, kinds: seq<ActionKind>)
    ensures DetectFrom(m, texto, kinds) == [] <==> forall i :: 0 <= i < |kinds| ==> m.actions(kinds[i], texto) == []
  {
    if |kinds| > 0 {
      NoMatchesNoOccurrences(m, texto, kinds[1..]);
      assert forall i :: 1 <= i < |kinds| ==> kinds[i] == kinds[1..][i - 1];
    }
  }

  // ---------------------------------------------------------------------------
  // The context window

  /** `texto[s : min(len(texto), e + 200)]`. */
  function Window(texto: string, sp: Span): string {
    PySlice(texto, sp.start, if |texto| < sp.end + 200 then |texto| else sp.end + 200)
  }

  /** For a span inside the text the window is the substring starting at the
      action and running 200 characters past its end, or to the end of the text. */
  lemma WindowBounds(texto: string, sp: Span)
    requires sp.start <= sp.end <= |texto|
    ensures var w := Window(texto, sp);
      && sp.start + |w| <= |texto|
      && w == texto[sp.start..sp.start + |w|]
      && |w| <= (sp.end - sp.start) + 200
      && (|w| == (sp.end - sp.start) + 200 || sp.start + |w| == |texto|)
  {
  }

  // ---------------------------------------------------------------------------
  // _extract_references

  /** Which pattern found a reference; the listing order of `_extract_references`. */
  datatype RefKind = LawRef | SelfRef | ArticleRef | ParagraphRef | IncisoRef | AlineaRef

  function RefRank(k: RefKind): nat {
    match k
    case LawRef => 0
    case SelfRef => 1
    case ArticleRef => 2
    case ParagraphRef => 3
    case IncisoRef => 4
    case AlineaRef => 5
  }

  /** `norma_info`: the cited law's type as written, number and year. */
  datatype NormaInfo = NormaInfo(tipo: string, numero: string, ano: string)

  datatype Reference = Reference(
    kind: RefKind,
    tipo: string,
    numero: string,
    text: string,
    confidence: real,
    normaInfo: Option<NormaInfo>)

  function ReferenceRank(r: Reference): int {
    RefRank(r.kind)
  }

  /** The reference built from one law citation. */
  function LawReference(lm: LawMatch): (r: Reference)
    ensures r.kind == LawRef && r.text == lm.text
    ensures r.tipo == Lower(Strip(lm.kind))
    ensures lm.year != "" ==>
              r.confidence == 0.9 && r.numero == Strip(lm.number) + "/" + lm.year
              && r.normaInfo == Some(NormaInfo(Strip(lm.kind), Strip(lm.number), lm.year))
    ensures lm.year == "" ==> r.confidence == 0.7 && r.numero == Strip(lm.number) && r.normaInfo.None?
  {
    var tipo := Strip(lm.kind);
    var numero := Strip(lm.number);
    var ano := lm.year;
    Reference(
      LawRef,
      Lower(tipo),
      if ano != "" then numero + "/" + ano else numero,
      lm.text,
      if ano != "" then 0.9 else 0.7,
      if ano != "" then Some(NormaInfo(tipo, numero, ano)) else None)
  }

  /** A law reference carries norma info exactly when it has the higher
      confidence, and then its fields agree with that info: `numero` is the
      info's number and year joined by a slash and `tipo` is the info's type
      in lower case. An undated one keeps the bare number at 0.7. */
  lemma LawReferenceConsistent(lm: LawMatch)
    ensures var r := LawReference(lm);
      && (r.normaInfo.Some? <==> r.confidence == 0.9)
      && (r.normaInfo.Some? ==>
            r.numero == r.normaInfo.value.numero + "/" + r.normaInfo.value.ano
            && r.tipo == Lower(r.normaInfo.value.tipo)
            && r.normaInfo.value.ano == lm.year != "")
      && (r.normaInfo.None? ==> r.confidence == 0.7 && r.numero == Strip(lm.number))
  {
  }

  /** A dated law reference reads back: cutting its `numero` at the last `'/'`
      gives the number and the year (the number pattern `[\d.,]+` has no slash,
      and neither has a four-digit year). */
  lemma LawNumberReadBack(lm: LawMatch)
    requires lm.year != "" && '/' !in lm.year
    ensures var n := LawReference(lm).numero; var k := AfterLast(n, '/');
      && k > 0
      && n[..k - 1] == Strip(lm.number)
      && n[k..] == lm.year
  {
    var num := Strip(lm.number);
    var n := LawReference(lm).numero;
    assert n == num + ['/'] + lm.year;
    AfterLastSplit(num, '/', lm.year);
  }

  /** A reference for a dispositivo pattern with confidence 0.9; an empty number
      group is read as `'único'` for paragraphs only. */
  function NumberReference(kind: RefKind, tipo: string, nm: NumberMatch): (r: Reference)
    ensures r.kind == kind && r.tipo == tipo && r.text == nm.text && r.confidence == 0.9 && r.normaInfo.None?
  {
    var numero := if kind == ParagraphRef && nm.group == "" then "único" else Strip(nm.group);
    Reference(kind, tipo, numero, nm.text, 0.9, None)
  }

  function LawReferences(ms: seq<LawMatch>): (r: seq<Reference>)
    ensures |r| == |ms|
    ensures forall i :: 0 <= i < |r| ==> r[i] == LawReference(ms[i])
  {
    seq(|ms|, i requires 0 <= i < |ms| => LawReference(ms[i]))
  }

  function SelfReferences(ms: seq<string>): (r: seq<Reference>)
    ensures |r| == |ms|
    ensures forall i :: 0 <= i < |r| ==> r[i] == Reference(SelfRef, "self_reference", "", ms[i], 0.95, None)
  {
    seq(|ms|, i requires 0 <= i < |ms| => Reference(SelfRef, "self_reference", "", ms[i], 0.95, None))
  }

  function NumberReferences(kind: RefKind, tipo: string, ms: seq<NumberMatch>): (r: seq<Reference>)
    ensures |r| == |ms|
    ensures forall i :: 0 <= i < |r| ==> r[i] == NumberReference(kind, tipo, ms[i])
  {
    seq(|ms|, i requires 0 <= i < |ms| => NumberReference(kind, tipo, ms[i]))
  }

  /** `_extract_references`: law citations, self-references, articles,
      paragraphs, incisos and alíneas, each group in match order. */
  function ExtractReferences(m: Matchers, w: string): seq<Reference> {
    LawReferences(m.law(w)) + SelfReferences(m.selfRef(w))
    + NumberReferences(ArticleRef, "artigo", m.article(w))
    + NumberReferences(ParagraphRef, "paragrafo", m.paragraph(w))
    + NumberReferences(IncisoRef, "inciso", m.inciso(w))
    + NumberReferences(AlineaRef, "alinea", m.alinea(w))
  }

  /** The confidences the extractor ever assigns. */
  predicate KnownConfidence(c: real) {
    c == 0.5 || c == 0.7 || c == 0.9 || c == 0.95
  }

  /** Every confidence is one of the fixed values, all within [0, 1]. */
  lemma KnownConfidenceBounds(c: real)
    requires KnownConfidence(c)
    ensures 0.0 <= c <= 1.0
  {
  }

  /** A group of references all found by the pattern `k`, each with one of
      the reference confidences 0.7, 0.9 and 0.95. */
  predicate Group(g: seq<Reference>, k: RefKind) {
    forall i :: 0 <= i < |g| ==> g[i].kind == k && (g[i].confidence == 0.7 || g[i].confidence == 0.9 || g[i].confidence == 0.95)
  }

  lemma GroupSorted(g: seq<Reference>, k: RefKind)
    requires Group(g, k)
    ensures SortedBy(g, ReferenceRank)
  {
  }

  /** Joining groups that come in listing order keeps the order. */
  lemma JoinGroups(a: seq<Reference>, g: seq<Reference>, k: RefKind)
    requires SortedBy(a, ReferenceRank) && Group(g, k)
    requires forall i :: 0 <= i < |a| ==> ReferenceRank(a[i]) <= RefRank(k)
    ensures SortedBy(a + g, ReferenceRank)
    ensures forall i :: 0 <= i < |a + g| ==> ReferenceRank((a + g)[i]) <= RefRank(k)
  {
    GroupSorted(g, k);
    ConcatSorted(a, g, ReferenceRank);
  }

  lemma GroupsOfMatches(m: Matchers, w: string)
    ensures Group(LawReferences(m.law(w)), LawRef)
    ensures Group(SelfReferences(m.selfRef(w)), SelfRef)
    ensures Group(NumberReferences(ArticleRef, "artigo", m.article(w)), ArticleRef)
    ensures Group(NumberReferences(ParagraphRef, "paragrafo", m.paragraph(w)), ParagraphRef)
    ensures Group(NumberReferences(IncisoRef, "inciso", m.inciso(w)), IncisoRef)
    ensures Group(NumberReferences(AlineaRef, "alinea", m.alinea(w)), AlineaRef)
  {
  }

  /** References come in the order law, self, article, paragraph, inciso,
      alínea, one per match. */
  lemma ReferencesOrdered(m: Matchers, w: string)
    ensures SortedBy(ExtractReferences(m, w), ReferenceRank)
    ensures |ExtractReferences(m, w)| ==
              |m.law(w)| + |m.selfRef(w)| + |m.article(w)| + |m.paragraph(w)| + |m.inciso(w)| + |m.alinea(w)|
  {
    GroupsOfMatches(m, w);
    ReferencesSorted(LawReferences(m.law(w)), SelfReferences(m.selfRef(w)),
      NumberReferences(ArticleRef, "artigo", m.article(w)),
      NumberReferences(ParagraphRef, "paragrafo", m.paragraph(w)),
      NumberReferences(IncisoRef, "inciso", m.inciso(w)),
      NumberReferences(AlineaRef, "alinea", m.alinea(w)));
  }

  lemma ReferencesSorted(l: seq<Reference>, s: seq<Reference>, a: seq<Reference>, p: seq<Reference>, n: seq<Reference>, al: seq<Reference>)
    requires Group(l, LawRef) && Group(s, SelfRef) && Group(a, ArticleRef)
    requires Group(p, ParagraphRef) && Group(n, IncisoRef) && Group(al, AlineaRef)
    ensures SortedBy(l + s + a + p + n + al, ReferenceRank)
  {
    GroupSorted(l, LawRef);
    JoinGroups(l, s, SelfRef);
    JoinGroups(l + s, a, ArticleRef);
    JoinGroups(l + s + a, p, ParagraphRef);
    JoinGroups(l + s + a + p, n, IncisoRef);
    JoinGroups(l + s + a + p + n, al, AlineaRef);
  }

  /** Every reference carries confidence 0.7, 0.9 or 0.95. */
  lemma ReferencesConfidence(m: Matchers, w: string)
    ensures forall i :: 0 <= i < |ExtractReferences(m, w)| ==>
              KnownConfidence(ExtractReferences(m, w)[i].confidence) && ExtractReferences(m, w)[i].confidence != 0.5
  {
    var l := LawReferences(m.law(w));
    var s := SelfReferences(m.selfRef(w));
    var a := NumberReferences(ArticleRef, "artigo", m.article(w));
    var p := NumberReferences(ParagraphRef, "paragrafo", m.paragraph(w));
    var n := NumberReferences(IncisoRef, "inciso", m.inciso(w));
    var al := NumberReferences(AlineaRef, "alinea", m.alinea(w));
    GroupsOfMatches(m, w);
    var r := l + s + a + p + n + al;
    forall i | 0 <= i < |r|
      ensures r[i].confidence == 0.7 || r[i].confidence == 0.9 || r[i].confidence == 0.95
    {
      assert r[i] in l || r[i] in s || r[i] in a || r[i] in p || r[i] in n || r[i] in al;
    }
  }

  // ---------------------------------------------------------------------------
  // extract_events

  /** One event dictionary. */
  datatype Event = Event(
    acao: ActionKind,
    targetText: string,
    referenciaTipo: string,
    referenciaNumero: string,
    confidence: real,
    extractionMethod: string,
    normaReferenciada: Option<NormaInfo>)

  function EventRank(e: Event): int {
    ActionRank(e.acao)
  }

  /** The event for one reference found after an action. */
  function ReferenceEvent(a: ActionKind, ref: Reference): Event {
    Event(a, ref.text, ref.tipo, ref.numero, ref.confidence, "regex", ref.normaInfo)
  }

  /** One event per reference, in order. */
  function ReferenceEvents(a: ActionKind, refs: seq<Reference>): (r: seq<Event>)
    ensures |r| == |refs| && forall i :: 0 <= i < |r| ==> r[i] == ReferenceEvent(a, refs[i])
  {
    seq(|refs|, i requires 0 <= i < |refs| => ReferenceEvent(a, refs[i]))
  }

  lemma ReferenceEventsMembers(a: ActionKind, refs: seq<Reference>, e: Event)
    ensures e in ReferenceEvents(a, refs) <==> exists ref :: ref in refs && e == ReferenceEvent(a, ref)
  {
    var r := ReferenceEvents(a, refs);
    if e in r {
      var i :| 0 <= i < |r| && r[i] == e;
      assert refs[i] in refs;
    }
    if ref :| ref in refs && e == ReferenceEvent(a, ref) {
      var i :| 0 <= i < |refs| && refs[i] == ref;
      assert r[i] == e;
    }
  }

  /** The event for an action with no reference in its window. */
  function FallbackEvent(a: ActionKind, context: string): Event {
    Event(a, PySlice(context, 0, 100), "", "", 0.5, "regex", None)
  }

  /** The references found in one occurrence's window. */
  function OccurrenceReferences(m: Matchers, texto: string, o: Occurrence): seq<Reference> {
    ExtractReferences(m, Window(texto, o.span))
  }

  /** The events of one occurrence: one per reference, or the single fallback. */
  function OccurrenceEvents(m: Matchers, texto: string, o: Occurrence): (r: seq<Event>)
    ensures forall i :: 0 <= i < |r| ==> r[i].acao == o.action
    ensures var refs := OccurrenceReferences(m, texto, o);
      |refs| > 0 ==>
        && |r| == |refs|
        && forall i :: 0 <= i < |r| ==>
             && r[i].targetText == refs[i].text
             && r[i].referenciaTipo == refs[i].tipo
             && r[i].referenciaNumero == refs[i].numero
             && r[i].confidence == refs[i].confidence
             && r[i].normaReferenciada == refs[i].normaInfo
  {
    var refs := OccurrenceReferences(m, texto, o);
    if |refs| > 0 then ReferenceEvents(o.action, refs)
    else [FallbackEvent(o.action, Window(texto, o.span))]
  }

  /** The events of each occurrence in turn. */
  function EventsOf(m: Matchers, texto: string, occs: seq<Occurrence>): seq<Event> {
    FlatMap((o: Occurrence) => OccurrenceEvents(m, texto, o), occs)
  }

  /** `extract_events`: the events of every detected action, in detection order. */
  function ExtractEvents(m: Matchers, texto: string): seq<Event> {
    EventsOf(m, texto, DetectActions(m, texto))
  }

  // ---------------------------------------------------------------------------
  // Properties of extract_events

  function Max1(n: nat): nat {
    if n == 0 then 1 else n
  }

  /** How many events the occurrences should give: the sum of the reference
      counts, each counted as at least one. */
  function ExpectedCount(m: Matchers, texto: string, occs: seq<Occurrence>): nat {
    if |occs| == 0 then 0
    else Max1(|OccurrenceReferences(m, texto, occs[0])|) + ExpectedCount(m, texto, occs[1..])
  }

  lemma OccurrenceCount(m: Matchers, texto: string, o: Occurrence)
    ensures |OccurrenceEvents(m, texto, o)| == Max1(|OccurrenceReferences(m, texto, o)|)
  {
  }

  /** The event-count law: the sum over occurrences of max(1, references found). */
  lemma {:induction false} EventCount(m: Matchers, texto: string, occs: seq<Occurrence>)
    ensures |EventsOf(m, texto, occs)| == ExpectedCount(m, texto, occs)
  {
    if |occs| > 0 {
      EventCount(m, texto, occs[1..]);
      OccurrenceCount(m, texto, occs[0]);
    }
  }

  /** What every event satisfies: method `'regex'`, a known confidence, and an
      action kind that comes from one of the occurrences. */
  predicate WellMadeEvent(e: Event) {
    e.extractionMethod == "regex" && KnownConfidence(e.confidence)
  }

  lemma OccurrenceEventsWellMade(m: Matchers, texto: string, o: Occurrence)
    ensures forall i :: 0 <= i < |OccurrenceEvents(m, texto, o)| ==> WellMadeEvent(OccurrenceEvents(m, texto, o)[i])
  {
    ReferencesConfidence(m, Window(texto, o.span));
  }

  /** Every event of a list of occurrences is well made. */
  lemma EventsOfWellMade(m: Matchers, texto: string, occs: seq<Occurrence>)
    ensures AllOf(EventsOf(m, texto, occs), WellMadeEvent)
  {
    forall i | 0 <= i < |occs|
      ensures AllOf(OccurrenceEvents(m, texto, occs[i]), WellMadeEvent)
    {
      OccurrenceEventsWellMade(m, texto, occs[i]);
    }
    FlatMapAll((o: Occurrence) => OccurrenceEvents(m, texto, o), occs, WellMadeEvent);
  }

  /** Every event's action kind is the kind of one of the occurrences. */
  lemma EventsOfKinds(m: Matchers, texto: string, occs: seq<Occurrence>)
    ensures AllOf(EventsOf(m, texto, occs), (e: Event) => e.acao in Map((o: Occurrence) => o.action, occs))
  {
    FlatMapFrom((o: Occurrence) => OccurrenceEvents(m, texto, o), occs, (o: Occurrence) => o.action, (e: Event) => e.acao);
  }

  /** Occurrences grouped by kind give events grouped by kind in the same order. */
  lemma EventsOfSorted(m: Matchers, texto: string, occs: seq<Occurrence>)
    requires SortedBy(occs, OccurrenceRank)
    ensures SortedBy(EventsOf(m, texto, occs), EventRank)
  {
    FlatMapSorted((o: Occurrence) => OccurrenceEvents(m, texto, o), occs, OccurrenceRank, EventRank);
  }

  /** Each occurrence gives at least one event, so there are no events exactly
      when there are no occurrences. */
  lemma {:induction false} EventsOfEmpty(m: Matchers, texto: string, occs: seq<Occurrence>)
    ensures EventsOf(m, texto, occs) == [] <==> occs == []
  {
    if occs != [] {
      OccurrenceCount(m, texto, occs[0]);
    }
  }

  /** `extract_events`: no events exactly when no action pattern matches. */
  lemma ExtractEventsEmpty(m: Matchers, texto: string)
    ensures ExtractEvents(m, texto) == [] <==> forall i :: 0 <= i < |ActionOrder| ==> m.actions(ActionOrder[i], texto) == []
  {
    EventsOfEmpty(m, texto, DetectActions(m, texto));
    ActionOrderRanked();
    NoMatchesNoOccurrences(m, texto, ActionOrder);
  }

  /** `extract_events`: the count law; events grouped by action kind in the
      declared order; method `'regex'` and a confidence in {0.5, 0.7, 0.9, 0.95}
      everywhere. */
  lemma ExtractEventsShape(m: Matchers, texto: string)
    ensures var r := ExtractEvents(m, texto);
      && |r| == ExpectedCount(m, texto, DetectActions(m, texto))
      && SortedBy(r, EventRank)
      && (forall i :: 0 <= i < |r| ==> WellMadeEvent(r[i]))
  {
    var occs := DetectActions(m, texto);
    EventCount(m, texto, occs);
    EventsOfSorted(m, texto, occs);
    EventsOfWellMade(m, texto, occs);
  }

  /** `e` is an event built for occurrence `o`: the event of one of the
      references in its window, or the fallback when the window has none. */
  predicate EventFor(m: Matchers, texto: string, o: Occurrence, e: Event) {
    var refs := OccurrenceReferences(m, texto, o);
    || (exists ref :: ref in refs && e == ReferenceEvent(o.action, ref))
    || (refs == [] && e == FallbackEvent(o.action, Window(texto, o.span)))
  }

  lemma OccurrenceEventsMembers(m: Matchers, texto: string, o: Occurrence, e: Event)
    ensures e in OccurrenceEvents(m, texto, o) <==> EventFor(m, texto, o, e)
  {
    ReferenceEventsMembers(o.action, OccurrenceReferences(m, texto, o), e);
  }

  /** The events of a list of occurrences are exactly the events built for
      one of them. */
  lemma EventsOfMembers(m: Matchers, texto: string, occs: seq<Occurrence>, e: Event)
    ensures e in EventsOf(m, texto, occs) <==> exists o :: o in occs && EventFor(m, texto, o, e)
  {
    var f := (o: Occurrence) => OccurrenceEvents(m, texto, o);
    FlatMapMembers(f, occs, e);
    forall o | o in occs
      ensures e in f(o) <==> EventFor(m, texto, o, e)
    {
      OccurrenceEventsMembers(m, texto, o, e);
    }
    if exists o :: o in occs && EventFor(m, texto, o, e) {
      var o :| o in occs && EventFor(m, texto, o, e);
      var i :| 0 <= i < |occs| && occs[i] == o;
      assert e in f(occs[i]);
    }
  }

  /** `extract_events`: an event is in the result exactly when it carries one
      reference found in a detected action's window, with that action, or it
      is the fallback of a detected action whose window holds no reference. */
  lemma ExtractEventsContent(m: Matchers, texto: string, e: Event)
    ensures e in ExtractEvents(m, texto) <==>
      exists o :: o in DetectActions(m, texto) && EventFor(m, texto, o, e)
  {
    EventsOfMembers(m, texto, DetectActions(m, texto), e);
  }

  /** The occurrences of one action kind. */
  function OfAction(a: ActionKind): Occurrence -> bool {
    (o: Occurrence) => o.action == a
  }

  /** The events of one action kind. */
  function EventOfAction(a: ActionKind): Event -> bool {
    (e: Event) => e.acao == a
  }

  /** From kinds that list `a` exactly once, the occurrences of kind `a` are
      that kind's matches in match order. */
  lemma DetectFromByKind(m: Matchers, texto: string, kinds: seq<ActionKind>, a: ActionKind, j: nat)
    requires j < |kinds|
    requires forall i :: 0 <= i < |kinds| ==> (kinds[i] == a <==> i == j)
    ensures Filter(OfAction(a), DetectFrom(m, texto, kinds)) == OccurrencesOf(m, texto, a)
  {
    var f := (k: ActionKind) => OccurrencesOf(m, texto, k);
    var isA := (k: ActionKind) => k == a;
    forall i, k | 0 <= i < |kinds| && 0 <= k < |f(kinds[i])|
      ensures OfAction(a)(f(kinds[i])[k]) <==> isA(kinds[i])
    {
      assert f(kinds[i])[k].action == kinds[i];
    }
    FilterFlatMap(f, kinds, isA, OfAction(a));
    FilterSingle(isA, kinds, j);
    assert FlatMap(f, [a]) == f(a) + FlatMap(f, []);
  }

  /** Each kind appears in the declared order once, at its rank. */
  lemma ActionOrderIndex(a: ActionKind)
    ensures 0 <= ActionRank(a) < |ActionOrder|
    ensures forall i :: 0 <= i < |ActionOrder| ==> (ActionOrder[i] == a <==> i == ActionRank(a))
  {
    assert forall i :: 0 <= i < |ActionOrder| ==> ActionRank(ActionOrder[i]) == i;
  }

  /** `_detect_actions`, kind by kind: the occurrences of kind `a`, taken in
      their order in the result, are exactly that kind's matches in match
      order. */
  lemma DetectActionsByKind(m: Matchers, texto: string, a: ActionKind)
    ensures Filter(OfAction(a), DetectActions(m, texto)) == OccurrencesOf(m, texto, a)
  {
    ActionOrderIndex(a);
    DetectFromByKind(m, texto, ActionOrder, a, ActionRank(a));
  }

  /** `extract_events`, kind by kind: the events of kind `a`, in their order
      in the result, are the events of that kind's occurrences in match
      order. */
  lemma ExtractEventsByKind(m: Matchers, texto: string, a: ActionKind)
    ensures Filter(EventOfAction(a), ExtractEvents(m, texto)) == EventsOf(m, texto, OccurrencesOf(m, texto, a))
  {
    var g := (o: Occurrence) => OccurrenceEvents(m, texto, o);
    var occs := DetectActions(m, texto);
    forall i, k | 0 <= i < |occs| && 0 <= k < |g(occs[i])|
      ensures EventOfAction(a)(g(occs[i])[k]) <==> OfAction(a)(occs[i])
    {
      assert g(occs[i])[k].acao == occs[i].action;
    }
    FilterFlatMap(g, occs, OfAction(a), EventOfAction(a));
    DetectActionsByKind(m, texto, a);
  }

  /** The fallback event: exactly one, carrying the first 100 characters of the
      window (which start at the action), or the rest of the text when fewer
      remain, empty reference fields, confidence 0.5 and no norma. */
  lemma FallbackShape(m: Matchers, texto: string, o: Occurrence)
    requires OccurrenceReferences(m, texto, o) == []
    requires o.span.start <= o.span.end <= |texto|
    ensures var r := OccurrenceEvents(m, texto, o);
      && |r| == 1
      && r[0].acao == o.action
      && |r[0].targetText| <= 100
      && o.span.start + |r[0].targetText| <= |texto|
      && r[0].targetText == texto[o.span.start..o.span.start + |r[0].targetText|]
      && |r[0].targetText| == (if |texto| - o.span.start < 100 then |texto| - o.span.start else 100)
      && r[0].referenciaTipo == "" && r[0].referenciaNumero == ""
      && r[0].confidence == 0.5 && r[0].normaReferenciada.None?
  {
    var w := Window(texto, o.span);
    WindowBounds(texto, o.span);
    var t := PySlice(w, 0, 100);
    assert t == w[..|t|];
  }

  // ---------------------------------------------------------------------------
  // parse_norma_reference

  /** `tipo_map`. */
  const TipoMap: map<string, string> := map[
    "lei" := "Lei",
    "lc" := "Lei Complementar",
    "lei complementar" := "Lei Complementar",
    "decreto" := "Decreto",
    "resolução" := "Resolução",
    "resoluçao" := "Resolução"]

  /** `tipo_map.get(tipo.lower(), tipo)`. */
  function NormalizeTipo(tipo: string): (r: string)
    ensures Lower(tipo) in TipoMap ==> r == TipoMap[Lower(tipo)]
    ensures Lower(tipo) !in TipoMap ==> r == tipo
  {
    if Lower(tipo) in TipoMap then TipoMap[Lower(tipo)] else tipo
  }

  /** `numero.replace('.', '').replace(',', '')`. */
  function RemoveSeparators(s: string): (r: string)
    ensures |r| <= |s|
    ensures forall i :: 0 <= i < |r| ==> r[i] != '.' && r[i] != ','
  {
    if |s| == 0 then []
    else (if s[0] == '.' || s[0] == ',' then [] else [s[0]]) + RemoveSeparators(s[1..])
  }

  /** A character that `replace('.', '')` and `replace(',', '')` leave in place. */
  predicate NotSeparator(c: char) {
    c != '.' && c != ','
  }

  /** The separators are the only characters removed: the result is the
      number's other characters in their original order, each keeps its number
      of occurrences, and a number without separators is left as it is. */
  lemma {:induction false} RemoveSeparatorsKeeps(s: string)
    ensures RemoveSeparators(s) == Filter(NotSeparator, s)
    ensures forall c :: c != '.' && c != ',' ==> multiset(RemoveSeparators(s))[c] == multiset(s)[c]
    ensures ('.' !in s && ',' !in s) ==> RemoveSeparators(s) == s
  {
    if |s| > 0 {
      RemoveSeparatorsKeeps(s[1..]);
      assert s == [s[0]] + s[1..];
    }
  }

  /** Removing separators works piece by piece: the kept characters of a
      number's two halves come out one half after the other. */
  lemma RemoveSeparatorsConcat(a: string, b: string)
    ensures RemoveSeparators(a + b) == RemoveSeparators(a) + RemoveSeparators(b)
  {
    RemoveSeparatorsKeeps(a + b);
    RemoveSeparatorsKeeps(a);
    RemoveSeparatorsKeeps(b);
    FilterConcat(NotSeparator, a, b);
  }

  /** `parse_norma_reference`'s result; it always returns one. */
  datatype NormaRef = NormaRef(tipo: string, numero: string, ano: Option<string>)

  /** `parse_norma_reference`: type through the table (falling back to the input),
      number without dots and commas, year passed through. */
  function ParseNormaReference(tipo: string, numero: string, ano: Option<string>): (r: NormaRef)
    ensures r.ano == ano
    ensures forall i :: 0 <= i < |r.numero| ==> r.numero[i] != '.' && r.numero[i] != ','
    ensures r.numero == Filter(NotSeparator, numero)
    ensures r.tipo == tipo || r.tipo in TipoMap.Values
    ensures Lower(tipo) in TipoMap ==> r.tipo == TipoMap[Lower(tipo)]
    ensures Lower(tipo) !in TipoMap ==> r.tipo == tipo
  {
    RemoveSeparatorsKeeps(numero);
    NormaRef(NormalizeTipo(tipo), RemoveSeparators(numero), ano)
  }

  /** The table lookup ignores case: two types equal up to case normalise alike
      when either is in the table. */
  lemma NormalizeTipoIgnoresCase(t1: string, t2: string)
    requires Lower(t1) == Lower(t2) && Lower(t1) in TipoMap
    ensures NormalizeTipo(t1) == NormalizeTipo(t2)
  {
  }

  /** Every table value is its own normal form. */
  lemma TipoValuesNormal()
    ensures forall v :: v in TipoMap.Values ==> Lower(v) in TipoMap && TipoMap[Lower(v)] == v
  {
    assert Lower("Lei") == "lei";
    assert Lower("Lei Complementar") == "lei complementar";
    assert Lower("Decreto") == "decreto";
    assert Lower("Resolução") == "resolução";
  }

  /** Normalising a type a second time changes nothing: a table value maps
      to itself. */
  lemma NormalizeTipoIdempotent(tipo: string)
    ensures NormalizeTipo(NormalizeTipo(tipo)) == NormalizeTipo(tipo)
  {
    TipoValuesNormal();
    if Lower(tipo) in TipoMap {
      assert NormalizeTipo(tipo) in TipoMap.Values;
    }
  }

  /** Normalising a second time changes nothing. */
  lemma ParseNormaReferenceIdempotent(tipo: string, numero: string, ano: Option<string>)
    ensures var r := ParseNormaReference(tipo, numero, ano);
      ParseNormaReference(r.tipo, r.numero, r.ano) == r
  {
    var r := ParseNormaReference(tipo, numero, ano);
    TipoValuesNormal();
    RemoveSeparatorsKeeps(r.numero);
    assert '.' !in r.numero && ',' !in r.numero;
  }
}
