/**
  The segmenter of `LegalTextParser`: it merges the line-start markers found by
  the six recognisers of `MARKER_PATTERNS`, cuts each marker's body from the end
  of its own marker to the start of the next merged marker, normalises that body,
  and returns the article / paragraph / inciso / alínea elements in text order.

  The regular expressions themselves are not modelled: a `Scan` lists, per
  recogniser, the matches `finditer` returns on the text, and `WellFormedScan`
  states what a multiline `^...` pattern that consumes at least one character
  guarantees about them.
*/
module Segmenter {
  import opened Wrappers
  import opened PyText
  import opened Sorting
  import opened TextShape

  // ---------------------------------------------------------------------------
  // Recognisers and their matches

  /** The keys of `MARKER_PATTERNS`, in the dictionary's order. */
  datatype MarkerKind =
    | ArtigoMarker
    | ParagrafoMarker
    | ParagrafoUnicoMarker
    | IncisoMarker
    | AlineaMarker
    | ItemMarker

  /** One regex match: the span `[start, end)` and capture group 1 (empty for
      the paragrafo-único pattern, which has no group). */
  datatype Match = Match(start: nat, end: nat, group: string)

  /** What each recogniser's `finditer` yields on the text, in match order. */
  datatype Scan = Scan(
    artigo: seq<Match>,
    paragrafo: seq<Match>,
    paragrafoUnico: seq<Match>,
    inciso: seq<Match>,
    alinea: seq<Match>,
    item: seq<Match>)

  function MatchesOf(scan: Scan, kind: MarkerKind): seq<Match> {
    match kind
    case ArtigoMarker => scan.artigo
    case ParagrafoMarker => scan.paragrafo
    case ParagrafoUnicoMarker => scan.paragrafoUnico
    case IncisoMarker => scan.inciso
    case AlineaMarker => scan.alinea
    case ItemMarker => scan.item
  }

  /** `pos` is where a line starts: offset 0 or just after a newline. */
  predicate LineStart(text: string, pos: nat) {
    pos == 0 || (pos <= |text| && text[pos - 1] == '\n')
  }

  /** A match of a `^`-anchored MULTILINE pattern that consumes at least one character. */
  predicate WellFormedMatch(text: string, m: Match) {
    m.start < m.end <= |text| && LineStart(text, m.start)
  }

  predicate WellFormedMatches(text: string, ms: seq<Match>) {
    forall i :: 0 <= i < |ms| ==> WellFormedMatch(text, ms[i])
  }

  /** Every recogniser's matches are well formed. */
  predicate WellFormedScan(text: string, scan: Scan) {
    && WellFormedMatches(text, scan.artigo)
    && WellFormedMatches(text, scan.paragrafo)
    && WellFormedMatches(text, scan.paragrafoUnico)
    && WellFormedMatches(text, scan.inciso)
    && WellFormedMatches(text, scan.alinea)
    && WellFormedMatches(text, scan.item)
  }

  // ---------------------------------------------------------------------------
  // _find_all_markers

  datatype Marker = Marker(pos: nat, kind: MarkerKind, m: Match)

  function MarkerPos(mk: Marker): int {
    mk.pos
  }

  function Tag(kind: MarkerKind, ms: seq<Match>): (r: seq<Marker>)
    ensures |r| == |ms|
    ensures forall i :: 0 <= i < |ms| ==> r[i] == Marker(ms[i].start, kind, ms[i])
  {
    seq(|ms|, i requires 0 <= i < |ms| => Marker(ms[i].start, kind, ms[i]))
  }

  /** The markers in the order the loops over `MARKER_PATTERNS` append them. */
  function Gathered(scan: Scan): seq<Marker> {
    Tag(ArtigoMarker, scan.artigo) + Tag(ParagrafoMarker, scan.paragrafo)
    + Tag(ParagrafoUnicoMarker, scan.paragrafoUnico) + Tag(IncisoMarker, scan.inciso)
    + Tag(AlineaMarker, scan.alinea) + Tag(ItemMarker, scan.item)
  }

  lemma GatheredHasAll(scan: Scan, kind: MarkerKind, i: nat)
    requires i < |MatchesOf(scan, kind)|
    ensures Marker(MatchesOf(scan, kind)[i].start, kind, MatchesOf(scan, kind)[i]) in Gathered(scan)
  {
    var ms := MatchesOf(scan, kind);
    var mk := Marker(ms[i].start, kind, ms[i]);
    var a, p, u, n, l, t :=
      Tag(ArtigoMarker, scan.artigo), Tag(ParagrafoMarker, scan.paragrafo),
      Tag(ParagrafoUnicoMarker, scan.paragrafoUnico), Tag(IncisoMarker, scan.inciso),
      Tag(AlineaMarker, scan.alinea), Tag(ItemMarker, scan.item);
    assert Gathered(scan) == a + p + u + n + l + t;
    match kind
    case ArtigoMarker => assert mk == a[i];
    case ParagrafoMarker => assert mk == p[i];
    case ParagrafoUnicoMarker => assert mk == u[i];
    case IncisoMarker => assert mk == n[i];
    case AlineaMarker => assert mk == l[i];
    case ItemMarker => assert mk == t[i];
  }

  lemma GatheredFromScan(scan: Scan, mk: Marker)
    requires mk in Gathered(scan)
    ensures mk.pos == mk.m.start && mk.m in MatchesOf(scan, mk.kind)
  {
    var a, p, u, n, l, t :=
      Tag(ArtigoMarker, scan.artigo), Tag(ParagrafoMarker, scan.paragrafo),
      Tag(ParagrafoUnicoMarker, scan.paragrafoUnico), Tag(IncisoMarker, scan.inciso),
      Tag(AlineaMarker, scan.alinea), Tag(ItemMarker, scan.item);
    assert Gathered(scan) == a + p + u + n + l + t;
    if mk in a {
      var i :| 0 <= i < |a| && a[i] == mk;
    } else if mk in p {
      var i :| 0 <= i < |p| && p[i] == mk;
    } else if mk in u {
      var i :| 0 <= i < |u| && u[i] == mk;
    } else if mk in n {
      var i :| 0 <= i < |n| && n[i] == mk;
    } else if mk in l {
      var i :| 0 <= i < |l| && l[i] == mk;
    } else {
      assert mk in t;
      var i :| 0 <= i < |t| && t[i] == mk;
    }
  }

  /** `_find_all_markers`: every match of every recogniser -- including inciso
      matches the date guard later drops and `item` matches, which never become
      elements -- merged into one list ordered by start offset. */
  function FindAllMarkers(scan: Scan): (r: seq<Marker>)
    ensures SortedBy(r, MarkerPos)
    ensures |r| == |scan.artigo| + |scan.paragrafo| + |scan.paragrafoUnico| + |scan.inciso| + |scan.alinea| + |scan.item|
    ensures forall kind, i :: 0 <= i < |MatchesOf(scan, kind)| ==>
              Marker(MatchesOf(scan, kind)[i].start, kind, MatchesOf(scan, kind)[i]) in r
    ensures forall j :: 0 <= j < |r| ==> r[j].pos == r[j].m.start && r[j].m in MatchesOf(scan, r[j].kind)
  {
    var g := Gathered(scan);
    var r := SortBy(g, MarkerPos);
    assert forall x :: x in r <==> x in g by {
      forall x ensures x in r <==> x in g {
        assert x in r <==> x in multiset(r);
        assert x in g <==> x in multiset(g);
      }
    }
    forall kind, i | 0 <= i < |MatchesOf(scan, kind)|
      ensures Marker(MatchesOf(scan, kind)[i].start, kind, MatchesOf(scan, kind)[i]) in r
    {
      GatheredHasAll(scan, kind, i);
    }
    forall j | 0 <= j < |r|
      ensures r[j].pos == r[j].m.start && r[j].m in MatchesOf(scan, r[j].kind)
    {
      assert r[j] in r;
      GatheredFromScan(scan, r[j]);
    }
    r
  }

  // ---------------------------------------------------------------------------
  // _extract_text_until_next_marker

  /** The start of the first marker in `markers` that begins strictly after
      `start`; in a list sorted by offset this is the least such start. */
  function NextMarkerStart(markers: seq<Marker>, start: nat): (r: Option<nat>)
    ensures r.None? <==> forall j :: 0 <= j < |markers| ==> markers[j].pos <= start
    ensures r.Some? ==> start < r.value && exists j :: 0 <= j < |markers| && markers[j].pos == r.value
    ensures r.Some? && SortedBy(markers, MarkerPos) ==>
              forall j :: 0 <= j < |markers| && start < markers[j].pos ==> r.value <= markers[j].pos
  {
    if |markers| == 0 then None
    else if markers[0].pos > start then Some(markers[0].pos)
    else
      var r := NextMarkerStart(markers[1..], start);
      assert forall j :: 1 <= j < |markers| ==> markers[j] == markers[1..][j - 1];
      r
  }

  /** `text[marker_end:next]`, or `text[marker_end:]` when no marker follows. */
  function RawBody(text: string, start: nat, end: nat, markers: seq<Marker>): string
  {
    PySlice(text, end, NextMarkerStart(markers, start).GetOr(|text|))
  }

  /** No line begins or ends with whitespace: a whitespace character other than a
      newline is never at either end of the text and never next to a newline. */
  predicate LinesTrimmed(s: string) {
    forall k :: 0 <= k < |s| && IsSpace(s[k]) && s[k] != '\n' ==> 0 < k < |s| - 1 && s[k - 1] != '\n' && s[k + 1] != '\n'
  }

  /** No tab and no two spaces in a row. */
  predicate NoBlankRuns(s: string) {
    && (forall k :: 0 <= k < |s| ==> s[k] != '\t')
    && (forall k :: 0 <= k < |s| - 1 ==> !(s[k] == ' ' && s[k + 1] == ' '))
  }

  /** What a normalised body looks like. */
  predicate BodyShape(s: string) {
    Trimmed(s) && LinesTrimmed(s) && NoBlankRuns(s)
  }

  /** One line of a body: `re.sub(r'[ \t]+', ' ', line).strip()`. */
  function NormalizeLine(line: string): string {
    Strip(CollapseRuns(line, Blanks))
  }

  lemma NoBlankRunsSlice(s: string, i: nat, j: nat)
    requires i <= j <= |s| && NoBlankRuns(s)
    ensures NoBlankRuns(s[i..j])
  {
    var t := s[i..j];
    assert forall k :: 0 <= k < |t| ==> t[k] == s[i + k];
  }

  lemma SingleLineTrimmed(r: string)
    requires '\n' !in r && Trimmed(r)
    ensures LinesTrimmed(r)
  {
    assert forall k :: 0 <= k < |r| ==> r[k] in r;
  }

  /** Collapsing runs of blanks brings in no newline. */
  lemma CollapseNoNewline(line: string)
    requires '\n' !in line
    ensures '\n' !in CollapseRuns(line, Blanks)
  {
    var c := CollapseRuns(line, Blanks);
    forall k | 0 <= k < |c|
      ensures c[k] != '\n'
    {
      assert c[k] == ' ' || c[k] in line;
    }
  }

  /** After collapsing there is no tab and no two spaces in a row. */
  lemma CollapsedNoBlankRuns(c: string)
    requires Collapsed(c, Blanks)
    ensures NoBlankRuns(c)
  {
    forall k | 0 <= k < |c|
      ensures c[k] != '\t'
    {
      if c[k] == '\t' {
        assert InClass(c[k], Blanks);
      }
    }
    forall k | 0 <= k < |c| - 1
      ensures !(c[k] == ' ' && c[k + 1] == ' ')
    {
      assert !(InClass(c[k], Blanks) && InClass(c[k + 1], Blanks));
    }
  }

  /** A slice of a newline-free string is newline-free. */
  lemma NoNewlineSlice(s: string, i: nat, j: nat)
    requires i <= j <= |s| && '\n' !in s
    ensures '\n' !in s[i..j]
  {
    forall k | 0 <= k < j - i
      ensures s[i..j][k] != '\n'
    {
      assert s[i..j][k] == s[i + k];
    }
  }

  /** A normalised line holds no newline. */
  lemma NormalizeLineNoNewline(line: string)
    requires '\n' !in line
    ensures '\n' !in NormalizeLine(line)
  {
    var c := CollapseRuns(line, Blanks);
    var o := StripOffset(c);
    var r := Strip(c);
    CollapseNoNewline(line);
    NoNewlineSlice(c, o, o + |r|);
  }

  /** A normalised line has no tab and no two spaces in a row. */
  lemma NormalizeLineNoBlankRuns(line: string)
    ensures NoBlankRuns(NormalizeLine(line))
  {
    var c := CollapseRuns(line, Blanks);
    var o := StripOffset(c);
    var r := Strip(c);
    CollapsedNoBlankRuns(c);
    NoBlankRunsSlice(c, o, o + |r|);
  }

  lemma NormalizeLineShape(line: string)
    requires '\n' !in line
    ensures var r := NormalizeLine(line); '\n' !in r && Trimmed(r) && LinesTrimmed(r) && NoBlankRuns(r)
  {
    NormalizeLineNoNewline(line);
    NormalizeLineNoBlankRuns(line);
    SingleLineTrimmed(NormalizeLine(line));
  }

  lemma NormalizeLineKeeps(line: string)
    ensures Without(NormalizeLine(line), Whitespace) == Without(line, Whitespace)
  {
    CollapseRunsKeeps(line, Blanks, Whitespace);
    StripKeeps(CollapseRuns(line, Blanks));
  }

  /** Two trimmed-line texts joined by a newline still have trimmed lines. */
  lemma JoinTwoTrimmed(a: string, b: string)
    requires LinesTrimmed(a) && LinesTrimmed(b)
    ensures LinesTrimmed(a + "\n" + b)
  {
    var s := a + "\n" + b;
    forall k | 0 <= k < |s| && IsSpace(s[k]) && s[k] != '\n'
      ensures 0 < k < |s| - 1 && s[k - 1] != '\n' && s[k + 1] != '\n'
    {
      if k < |a| {
        assert s[k] == a[k];
        assert s[k - 1] == a[k - 1] && s[k + 1] == a[k + 1];
      } else {
        assert k != |a|;
        var m := k - |a| - 1;
        assert s[k] == b[m];
        assert s[k - 1] == b[m - 1] && s[k + 1] == b[m + 1];
      }
    }
  }

  /** Two texts without blank runs joined by a newline have none either. */
  lemma JoinTwoNoBlankRuns(a: string, b: string)
    requires NoBlankRuns(a) && NoBlankRuns(b)
    ensures NoBlankRuns(a + "\n" + b)
  {
    var s := a + "\n" + b;
    forall k | 0 <= k < |s|
      ensures s[k] != '\t'
    {
      if k < |a| {
        assert s[k] == a[k];
      } else if k > |a| {
        assert s[k] == b[k - |a| - 1];
      }
    }
    forall k | 0 <= k < |s| - 1
      ensures !(s[k] == ' ' && s[k + 1] == ' ')
    {
      if k + 1 < |a| {
        assert s[k] == a[k] && s[k + 1] == a[k + 1];
      } else if k > |a| {
        assert s[k] == b[k - |a| - 1] && s[k + 1] == b[k - |a|];
      }
    }
  }

  lemma {:induction false} JoinShape(lines: seq<string>)
    requires forall i :: 0 <= i < |lines| ==> LinesTrimmed(lines[i]) && NoBlankRuns(lines[i])
    ensures LinesTrimmed(JoinLines(lines)) && NoBlankRuns(JoinLines(lines))
    decreases |lines|
  {
    if |lines| > 1 {
      JoinShape(lines[1..]);
      JoinTwoTrimmed(lines[0], JoinLines(lines[1..]));
      JoinTwoNoBlankRuns(lines[0], JoinLines(lines[1..]));
    }
  }

  lemma SliceShape(s: string, i: nat, j: nat)
    requires i <= j <= |s|
    requires LinesTrimmed(s) && NoBlankRuns(s) && Trimmed(s[i..j])
    ensures LinesTrimmed(s[i..j]) && NoBlankRuns(s[i..j])
  {
    var t := s[i..j];
    assert forall k :: 0 <= k < |t| ==> t[k] == s[i + k];
  }

  /** Every line normalised on its own. */
  function NormalizeLines(lines: seq<string>): (r: seq<string>)
    requires forall i :: 0 <= i < |lines| ==> '\n' !in lines[i]
    ensures |r| == |lines|
    ensures forall i :: 0 <= i < |r| ==> r[i] == NormalizeLine(lines[i])
  {
    seq(|lines|, i requires 0 <= i < |lines| => NormalizeLine(lines[i]))
  }

  /** Each normalised line keeps its non-whitespace characters and gets the body shape. */
  lemma NormalizeLinesShape(lines: seq<string>)
    requires forall i :: 0 <= i < |lines| ==> '\n' !in lines[i]
    ensures var r := NormalizeLines(lines);
      && (forall i :: 0 <= i < |r| ==> LinesTrimmed(r[i]) && NoBlankRuns(r[i]))
      && (forall i :: 0 <= i < |r| ==> Without(r[i], Whitespace) == Without(lines[i], Whitespace))
  {
    var r := NormalizeLines(lines);
    forall i | 0 <= i < |lines|
      ensures LinesTrimmed(r[i]) && NoBlankRuns(r[i])
      ensures Without(r[i], Whitespace) == Without(lines[i], Whitespace)
    {
      NormalizeLineShape(lines[i]);
      NormalizeLineKeeps(lines[i]);
    }
  }

  lemma StripShape(s: string)
    requires LinesTrimmed(s) && NoBlankRuns(s)
    ensures BodyShape(Strip(s))
  {
    var o, r := StripOffset(s), Strip(s);
    assert r == s[o..o + |r|] && Trimmed(r);
    SliceShape(s, o, o + |r|);
  }

  /** Lines 129-136: `rstrip`, runs of three or more newlines cut to two, blank
      runs inside each line collapsed and each line stripped, then the whole
      stripped. */
  function NormalizeBody(raw: string): string {
    var collapsed := CollapseNewlines(RStrip(raw));
    var lines := SplitLines(collapsed);
    Strip(JoinLines(NormalizeLines(lines)))
  }

  /** A normalised body has the body shape and keeps every non-whitespace
      character of the raw text, in order: only whitespace is touched. */
  lemma NormalizeBodyShape(raw: string)
    ensures BodyShape(NormalizeBody(raw))
    ensures Without(NormalizeBody(raw), Whitespace) == Without(raw, Whitespace)
  {
    var collapsed := CollapseNewlines(RStrip(raw));
    var lines := SplitLines(collapsed);
    var cleaned := NormalizeLines(lines);
    NormalizeLinesShape(lines);
    var joined := JoinLines(cleaned);
    assert LinesTrimmed(joined) && NoBlankRuns(joined) by {
      JoinShape(cleaned);
    }
    assert Without(joined, Whitespace) == Without(raw, Whitespace) by {
      RStripKeeps(raw);
      CollapseNewlinesKeeps(RStrip(raw), Whitespace);
      JoinLinesKeeps(cleaned, lines);
    }
    StripShape(joined);
    StripKeeps(joined);
  }

  /** A normalised line has the line's layout without its end gaps. */
  lemma LineLayout(line: string)
    ensures Shape(NormalizeLine(line)) == TrimGaps(Shape(line))
  {
    ShapeStrip(CollapseRuns(line, Blanks));
    ShapeCollapse(line, Blanks);
  }

  /** Normalising every line and joining keeps the stripped layout of the joined lines. */
  lemma {:induction false} LinesLayout(lines: seq<string>)
    requires |lines| >= 1
    requires forall i :: 0 <= i < |lines| ==> '\n' !in lines[i]
    ensures TrimGaps(Shape(JoinLines(NormalizeLines(lines)))) == TrimGaps(Shape(JoinLines(lines)))
    decreases |lines|
  {
    var cleaned := NormalizeLines(lines);
    LineLayout(lines[0]);
    StrippedShape(CollapseRuns(lines[0], Blanks));
    if |lines| > 1 {
      var rest := lines[1..];
      assert cleaned[1..] == NormalizeLines(rest);
      LinesLayout(rest);
      NewlineJoin(cleaned[0], JoinLines(cleaned[1..]));
      NewlineJoin(lines[0], JoinLines(rest));
    }
  }

  /** The normalised body has the raw text's layout without its end gaps:
      every run of whitespace between two kept characters is still there,
      and it holds a line break exactly when the raw run did. */
  lemma NormalizeBodyLayout(raw: string)
    ensures Shape(NormalizeBody(raw)) == TrimGaps(Shape(raw))
  {
    var collapsed := CollapseNewlines(RStrip(raw));
    var lines := SplitLines(collapsed);
    var joined := JoinLines(NormalizeLines(lines));
    ShapeStrip(joined);
    LinesLayout(lines);
    ShapeCollapseNewlines(RStrip(raw));
    ShapeStrip(RStrip(raw));
    ShapeStrip(raw);
    assert Strip(RStrip(raw)) == Strip(raw) by {
      if |RStrip(raw)| > 0 {
        RStripKept(RStrip(raw));
      }
    }
  }

  // The normaliser is not idempotent: a line holding only a blank between two
  // empty lines is emptied after the newline runs were cut, so a first pass
  // can leave four newlines in a row, which a second pass cuts to two. The
  // lemmas below work on any characters `a`, `b` that are not whitespace and
  // any blank `sp`.

  /** A string that does not end in whitespace is its own `rstrip`. */
  lemma RStripKept(s: string)
    requires |s| > 0 && !IsSpace(s[|s| - 1])
    ensures RStrip(s) == s
  {
  }

  /** A line of one non-whitespace character is its own normal form. */
  lemma LetterLine(c: char)
    requires !IsSpace(c)
    ensures NormalizeLine([c]) == [c]
  {
    CollapseRunsFixedPoint([c], Blanks);
  }

  /** A line holding one blank normalises to the empty line. */
  lemma BlankLine(sp: char)
    requires InClass(sp, Blanks)
    ensures NormalizeLine([sp]) == ""
  {
    CollapseRunsFixedPoint([' '], Blanks);
    assert CollapseRuns([sp], Blanks) == [' '] + CollapseRuns([], Blanks);
  }

  /** The empty line is its own normal form. */
  lemma EmptyLine()
    ensures NormalizeLine("") == ""
  {
  }

  /** `NormalizeLines` is determined line by line. */
  lemma NormalizeLinesEach(lines: seq<string>, cleaned: seq<string>)
    requires forall i :: 0 <= i < |lines| ==> '\n' !in lines[i]
    requires |cleaned| == |lines|
    requires forall i :: 0 <= i < |lines| ==> NormalizeLine(lines[i]) == cleaned[i]
    ensures NormalizeLines(lines) == cleaned
  {
  }

  /** Joining one line in front of others. */
  lemma JoinLinesCons(x: string, rest: seq<string>)
    requires |rest| >= 1
    ensures JoinLines([x] + rest) == x + "\n" + JoinLines(rest)
  {
    assert ([x] + rest)[1..] == rest;
  }

  /** Splitting the first-pass input: the blank sits on a line of its own. */
  lemma FirstPassSplit(a: char, sp: char, b: char)
    requires !IsSpace(a) && !IsSpace(b) && InClass(sp, Blanks)
    ensures SplitLines([a, '\n', '\n', sp, '\n', '\n', b]) == [[a], [], [sp], [], [b]]
  {
    var lines := [[a], [], [sp], [], [b]];
    JoinLinesCons([], [[b]]);
    JoinLinesCons([sp], [[], [b]]);
    JoinLinesCons([], [[sp], [], [b]]);
    JoinLinesCons([a], [[], [sp], [], [b]]);
    assert lines == [[a]] + [[], [sp], [], [b]];
    assert [[], [sp], [], [b]] == [[]] + [[sp], [], [b]];
    assert [[sp], [], [b]] == [[sp]] + [[], [b]];
    assert [[], [b]] == [[]] + [[b]];
    assert JoinLines(lines) == [a, '\n', '\n', sp, '\n', '\n', b];
    assert forall i :: 0 <= i < |lines| ==> '\n' !in lines[i];
    SplitJoin(lines);
  }

  /** A line of at most one character that is either whitespace-free or a blank. */
  predicate ShortLine(l: string) {
    |l| == 0 || (|l| == 1 && (!IsSpace(l[0]) || InClass(l[0], Blanks)))
  }

  /** What such a line normalises to: itself, unless it is a blank. */
  function ShortLineNormal(l: string): string {
    if |l| == 1 && !IsSpace(l[0]) then l else []
  }

  /** A short line normalises to `ShortLineNormal` and holds no newline. */
  lemma ShortLineNormalizes(l: string)
    requires ShortLine(l)
    ensures '\n' !in l && NormalizeLine(l) == ShortLineNormal(l)
  {
    if |l| == 0 {
      EmptyLine();
    } else if !IsSpace(l[0]) {
      assert l == [l[0]];
      LetterLine(l[0]);
    } else {
      assert l == [l[0]];
      BlankLine(l[0]);
    }
  }

  /** `NormalizeLines` over short lines. */
  lemma ShortLinesNormalize(lines: seq<string>, cleaned: seq<string>)
    requires forall i :: 0 <= i < |lines| ==> ShortLine(lines[i])
    requires |cleaned| == |lines|
    requires forall i :: 0 <= i < |lines| ==> cleaned[i] == ShortLineNormal(lines[i])
    ensures forall i :: 0 <= i < |lines| ==> '\n' !in lines[i]
    ensures NormalizeLines(lines) == cleaned
  {
    forall i | 0 <= i < |lines|
      ensures '\n' !in lines[i] && NormalizeLine(lines[i]) == cleaned[i]
    {
      ShortLineNormalizes(lines[i]);
    }
    NormalizeLinesEach(lines, cleaned);
  }

  /** Normalising the first-pass lines: the blank line becomes empty. */
  lemma FirstPassLines(a: char, sp: char, b: char)
    requires !IsSpace(a) && !IsSpace(b) && InClass(sp, Blanks)
    ensures NormalizeLines([[a], [], [sp], [], [b]]) == [[a], [], [], [], [b]]
  {
    var lines, cleaned := [[a], [], [sp], [], [b]], [[a], [], [], [], [b]];
    forall i | 0 <= i < 5
      ensures ShortLine(lines[i]) && cleaned[i] == ShortLineNormal(lines[i])
    {
      if i == 0 { } else if i == 1 { } else if i == 2 { } else if i == 3 { } else { }
    }
    ShortLinesNormalize(lines, cleaned);
  }

  /** Joining the first-pass lines gives four newlines in a row. */
  lemma FirstPassJoin(a: char, b: char)
    ensures JoinLines([[a], [], [], [], [b]]) == [a, '\n', '\n', '\n', '\n', b]
  {
    JoinLinesCons([], [[b]]);
    JoinLinesCons([], [[], [b]]);
    JoinLinesCons([], [[], [], [b]]);
    JoinLinesCons([a], [[], [], [], [b]]);
    assert [[a], [], [], [], [b]] == [[a]] + [[], [], [], [b]];
    assert [[], [], [], [b]] == [[]] + [[], [], [b]];
    assert [[], [], [b]] == [[]] + [[], [b]];
    assert [[], [b]] == [[]] + [[b]];
  }

  /** A first pass over a body whose blank-only line sits between two empty
      lines leaves four newlines in a row. */
  lemma NormalizeBodyLeavesNewlineRun(a: char, sp: char, b: char)
    requires !IsSpace(a) && !IsSpace(b) && InClass(sp, Blanks)
    ensures NormalizeBody([a, '\n', '\n', sp, '\n', '\n', b]) == [a, '\n', '\n', '\n', '\n', b]
  {
    var raw := [a, '\n', '\n', sp, '\n', '\n', b];
    RStripKept(raw);
    assert NoTripleNewline(raw) by {
      assert raw[0] != '\n' && raw[3] != '\n' && raw[6] != '\n';
    }
    CollapseNewlinesFixedPoint(raw);
    FirstPassSplit(a, sp, b);
    FirstPassLines(a, sp, b);
    FirstPassJoin(a, b);
    assert Trimmed([a, '\n', '\n', '\n', '\n', b]);
  }

  /** The newline collapse cuts the run of four to two. */
  lemma SecondPassCollapse(a: char, b: char)
    requires !IsSpace(a) && !IsSpace(b)
    ensures CollapseNewlines([a, '\n', '\n', '\n', '\n', b]) == [a, '\n', '\n', b]
  {
    var raw := [a, '\n', '\n', '\n', '\n', b];
    var tail := raw[1..];
    assert RunLength(tail, Newlines) == 4 by {
      assert tail[4..] == [b];
      assert RunLength(tail[4..], Newlines) == 0;
      assert tail[3..][1..] == tail[4..] && tail[2..][1..] == tail[3..] && tail[1..][1..] == tail[2..];
    }
    assert tail[4..] == [b];
    CollapseNewlinesFixedPoint([b]);
  }

  /** Splitting, normalising and joining the second-pass lines changes nothing. */
  lemma SecondPassLines(a: char, b: char)
    requires !IsSpace(a) && !IsSpace(b)
    ensures JoinLines(NormalizeLines(SplitLines([a, '\n', '\n', b]))) == [a, '\n', '\n', b]
  {
    var lines := [[a], [], [b]];
    JoinLinesCons([], [[b]]);
    JoinLinesCons([a], [[], [b]]);
    assert lines == [[a]] + [[], [b]];
    assert [[], [b]] == [[]] + [[b]];
    assert JoinLines(lines) == [a, '\n', '\n', b];
    assert forall i :: 0 <= i < |lines| ==> '\n' !in lines[i];
    SplitJoin(lines);
    forall i | 0 <= i < 3
      ensures ShortLine(lines[i]) && lines[i] == ShortLineNormal(lines[i])
    {
      if i == 0 { } else if i == 1 { } else { }
    }
    ShortLinesNormalize(lines, lines);
  }

  /** A second pass cuts that run to two newlines, so normalising twice
      differs from normalising once. */
  lemma NormalizeBodyNotIdempotent(a: char, sp: char, b: char)
    requires !IsSpace(a) && !IsSpace(b) && InClass(sp, Blanks)
    ensures var once := NormalizeBody([a, '\n', '\n', sp, '\n', '\n', b]);
      && once == [a, '\n', '\n', '\n', '\n', b]
      && NormalizeBody(once) == [a, '\n', '\n', b]
      && NormalizeBody(once) != once
  {
    NormalizeBodyLeavesNewlineRun(a, sp, b);
    var once := [a, '\n', '\n', '\n', '\n', b];
    RStripKept(once);
    SecondPassCollapse(a, b);
    SecondPassLines(a, b);
    assert Trimmed([a, '\n', '\n', b]);
    assert |NormalizeBody(once)| != |once|;
  }

  /** `_extract_text_until_next_marker`: the normalised text between this marker's
      end and the next merged marker's start. */
  function ExtractTextUntilNextMarker(text: string, start: nat, end: nat, markers: seq<Marker>): string {
    NormalizeBody(RawBody(text, start, end, markers))
  }

  // ---------------------------------------------------------------------------
  // extract_articles / extract_paragraphs / extract_incisos / extract_alineas

  /** The element kinds `parse_legal_text` produces; `paragrafo_unico` matches
      become paragraphs, and `item` matches never become elements. */
  datatype ElementKind = Artigo | Paragrafo | Inciso | Alinea

  /** What an extractor takes from one match before cutting its body: the
      kind, the number (`match.group(1).strip()`, or "único") and the match. */
  datatype Span = Span(kind: ElementKind, numero: string, m: Match)

  function SpanStart(sp: Span): int {
    sp.m.start
  }

  /** One element dictionary: tipo, numero, texto, start_pos, end_pos, full_match. */
  datatype Element = Element(kind: ElementKind, numero: string, texto: string, startPos: nat, endPos: nat, fullMatch: string)

  function ElementStart(e: Element): int {
    e.startPos
  }

  /** The marker's own length: what lies between `start_pos` and the body. */
  function MarkerEnd(e: Element): int {
    e.endPos - |e.texto|
  }

  /** The dictionary an extractor appends for a span: the body runs from the
      match end to the next merged marker, and `end_pos` is the match end plus
      the body's length. */
  function MakeElement(text: string, markers: seq<Marker>, sp: Span): (e: Element)
    ensures e.kind == sp.kind && e.numero == sp.numero && e.startPos == sp.m.start && MarkerEnd(e) == sp.m.end
  {
    var body := ExtractTextUntilNextMarker(text, sp.m.start, sp.m.end, markers);
    Element(sp.kind, sp.numero, body, sp.m.start, sp.m.end + |body|, PySlice(text, sp.m.start, sp.m.end))
  }

  /** `MakeElement` for one text and one marker list, as a function value. */
  function Builder(text: string, markers: seq<Marker>): Span -> Element {
    sp => MakeElement(text, markers, sp)
  }

  /** One span per match, numbered by the stripped capture group. */
  function NumberedSpans(kind: ElementKind, ms: seq<Match>): (r: seq<Span>)
    ensures |r| == |ms|
    ensures forall i :: 0 <= i < |ms| ==> r[i] == Span(kind, Strip(ms[i].group), ms[i])
  {
    seq(|ms|, i requires 0 <= i < |ms| => Span(kind, Strip(ms[i].group), ms[i]))
  }

  function ExtractArticles(scan: Scan): seq<Span> {
    NumberedSpans(Artigo, scan.artigo)
  }

  /** One paragraph numbered "único" per "Parágrafo único" match. */
  function UnicoSpans(ms: seq<Match>): (r: seq<Span>)
    ensures |r| == |ms|
    ensures forall i :: 0 <= i < |ms| ==> r[i] == Span(Paragrafo, "único", ms[i])
  {
    seq(|ms|, i requires 0 <= i < |ms| => Span(Paragrafo, "único", ms[i]))
  }

  /** Numbered paragraphs first, then every "Parágrafo único". */
  function ExtractParagraphs(scan: Scan): seq<Span> {
    NumberedSpans(Paragrafo, scan.paragrafo) + UnicoSpans(scan.paragrafoUnico)
  }

  /** Four digits start at `i`. */
  predicate FourDigitsAt(s: string, i: nat)
    requires i + 4 <= |s|
  {
    IsDigit(s[i]) && IsDigit(s[i + 1]) && IsDigit(s[i + 2]) && IsDigit(s[i + 3])
  }

  /** A digit, a slash and a digit start at `i`. */
  predicate SlashPairAt(s: string, i: nat)
    requires i + 3 <= |s|
  {
    IsDigit(s[i]) && s[i + 1] == '/' && IsDigit(s[i + 2])
  }

  /** `re.search(r'\d{4}|\d{1,2}/\d{1,2}', s)` succeeds: four digits in a row, or a
      digit, a slash and a digit (any one- or two-digit pair around a slash holds one). */
  predicate LooksLikeDate(s: string) {
    || (exists i: nat :: i + 4 <= |s| && FourDigitsAt(s, i))
    || (exists i: nat :: i + 3 <= |s| && SlashPairAt(s, i))
  }

  /** `text[max(0, pos - 10):pos]`. */
  function TextBefore(text: string, pos: nat): (r: string)
    ensures pos <= |text| ==> |r| <= 10
  {
    PySlice(text, if pos >= 10 then pos - 10 else 0, pos)
  }

  /** The second inciso check: at offset 0, or after one of `\n . : ; ) ]`. */
  predicate FollowsSeparator(text: string, pos: nat)
    requires pos <= |text|
  {
    pos == 0 || text[pos - 1] in ['\n', '.', ':', ';', ')', ']']
  }

  predicate IncisoKept(text: string, m: Match)
    requires m.start <= |text|
  {
    !LooksLikeDate(TextBefore(text, m.start)) && FollowsSeparator(text, m.start)
  }

  /** A match inside the text that passes both checks. */
  predicate Keeps(text: string, m: Match) {
    m.start <= |text| && IncisoKept(text, m)
  }

  /** The inciso matches `extract_incisos` keeps, in match order. */
  function KeptIncisos(text: string, ms: seq<Match>): seq<Match> {
    Filter((m: Match) => Keeps(text, m), ms)
  }

  /** Every kept match passed both checks, and the filter keeps matches well formed. */
  lemma KeptIncisosOk(text: string, ms: seq<Match>)
    ensures forall j :: 0 <= j < |KeptIncisos(text, ms)| ==> Keeps(text, KeptIncisos(text, ms)[j])
    ensures WellFormedMatches(text, ms) ==> WellFormedMatches(text, KeptIncisos(text, ms))
  {
    FilterAll((m: Match) => Keeps(text, m), ms, (m: Match) => WellFormedMatch(text, m));
  }

  /** A match is kept exactly when it is one of the matches and passes both checks. */
  lemma KeptIncisosMembers(text: string, ms: seq<Match>, m: Match)
    ensures m in KeptIncisos(text, ms) <==> m in ms && Keeps(text, m)
  {
    FilterMembers((m: Match) => Keeps(text, m), ms, m);
  }

  /** Under the line-start guarantee the separator check never drops a match:
      only the date guard does. */
  lemma SeparatorCheckNeverFires(text: string, m: Match)
    requires WellFormedMatch(text, m)
    ensures IncisoKept(text, m) <==> !LooksLikeDate(TextBefore(text, m.start))
  {
  }

  function ExtractIncisos(text: string, scan: Scan): seq<Span> {
    NumberedSpans(Inciso, KeptIncisos(text, scan.inciso))
  }

  function ExtractAlineas(scan: Scan): seq<Span> {
    NumberedSpans(Alinea, scan.alinea)
  }

  // ---------------------------------------------------------------------------
  // parse_legal_text

  /** The four extractions, concatenated in the order `parse_legal_text` extends them. */
  function Extracted(text: string, scan: Scan): seq<Span>
    requires WellFormedScan(text, scan)
  {
    ExtractArticles(scan) + ExtractParagraphs(scan) + ExtractIncisos(text, scan) + ExtractAlineas(scan)
  }

  /** A span of a well-formed match; an inciso's also passed the date guard. */
  predicate SpanOk(text: string, sp: Span) {
    && WellFormedMatch(text, sp.m)
    && (sp.kind == Inciso ==> !LooksLikeDate(TextBefore(text, sp.m.start)))
  }

  lemma NumberedOk(text: string, kind: ElementKind, ms: seq<Match>, sp: Span)
    requires WellFormedMatches(text, ms)
    requires sp in NumberedSpans(kind, ms)
    ensures WellFormedMatch(text, sp.m) && sp.kind == kind
  {
    var r := NumberedSpans(kind, ms);
    var i :| 0 <= i < |r| && r[i] == sp;
  }

  /** Every kept inciso match passed the date guard. */
  lemma KeptNotDate(text: string, ms: seq<Match>, j: nat)
    requires j < |KeptIncisos(text, ms)|
    ensures !LooksLikeDate(TextBefore(text, KeptIncisos(text, ms)[j].start))
  {
    KeptIncisosOk(text, ms);
    assert Keeps(text, KeptIncisos(text, ms)[j]);
  }

  lemma IncisosOk(text: string, scan: Scan, sp: Span)
    requires WellFormedScan(text, scan)
    requires sp in ExtractIncisos(text, scan)
    ensures SpanOk(text, sp)
  {
    var kept := KeptIncisos(text, scan.inciso);
    var r := NumberedSpans(Inciso, kept);
    var i :| 0 <= i < |r| && r[i] == sp;
    KeptIncisosOk(text, scan.inciso);
    KeptNotDate(text, scan.inciso, i);
  }

  /** Every extracted span is well formed; every inciso passed the date guard. */
  lemma ExtractedOk(text: string, scan: Scan, sp: Span)
    requires WellFormedScan(text, scan)
    requires sp in Extracted(text, scan)
    ensures SpanOk(text, sp)
  {
    var a, p, n, l := ExtractArticles(scan), ExtractParagraphs(scan), ExtractIncisos(text, scan), ExtractAlineas(scan);
    assert Extracted(text, scan) == a + p + n + l;
    if sp in a {
      NumberedOk(text, Artigo, scan.artigo, sp);
    } else if sp in p {
      var numbered, unico := NumberedSpans(Paragrafo, scan.paragrafo), UnicoSpans(scan.paragrafoUnico);
      if sp in numbered {
        NumberedOk(text, Paragrafo, scan.paragrafo, sp);
      } else {
        assert sp in unico;
        var i :| 0 <= i < |unico| && unico[i] == sp;
      }
    } else if sp in n {
      IncisosOk(text, scan, sp);
    } else {
      NumberedOk(text, Alinea, scan.alinea, sp);
    }
  }

  /** The spans of a permutation of the extraction are all well formed. */
  lemma PermutedOk(text: string, scan: Scan, sorted: seq<Span>)
    requires WellFormedScan(text, scan)
    requires multiset(sorted) == multiset(Extracted(text, scan))
    ensures forall i :: 0 <= i < |sorted| ==> SpanOk(text, sorted[i])
  {
    forall i | 0 <= i < |sorted|
      ensures SpanOk(text, sorted[i])
    {
      assert sorted[i] in multiset(sorted);
      ExtractedOk(text, scan, sorted[i]);
    }
  }

  /** The element's text is cut at `markers`, and it starts at a line start. */
  predicate ElementCut(text: string, markers: seq<Marker>, e: Element) {
    && LineStart(text, e.startPos)
    && e.startPos < MarkerEnd(e) <= |text|
    && e.texto == ExtractTextUntilNextMarker(text, e.startPos, MarkerEnd(e) as nat, markers)
    && e.fullMatch == text[e.startPos..MarkerEnd(e)]
  }

  /** An element built from a well-formed match is cut at it and has a normalised body. */
  lemma MakeElementCut(text: string, markers: seq<Marker>, sp: Span)
    requires WellFormedMatch(text, sp.m)
    ensures ElementCut(text, markers, MakeElement(text, markers, sp))
    ensures BodyShape(MakeElement(text, markers, sp).texto)
  {
    NormalizeBodyShape(RawBody(text, sp.m.start, sp.m.end, markers));
  }

  /** Building the elements of well-formed spans keeps their order, kinds and starts. */
  lemma BuiltCut(text: string, markers: seq<Marker>, sps: seq<Span>)
    requires forall i :: 0 <= i < |sps| ==> SpanOk(text, sps[i])
    ensures var r := Map(Builder(text, markers), sps);
      forall i :: 0 <= i < |r| ==>
        && ElementCut(text, markers, r[i]) && BodyShape(r[i].texto)
        && (r[i].kind == Inciso ==> !LooksLikeDate(TextBefore(text, r[i].startPos)))
  {
    var r := Map(Builder(text, markers), sps);
    forall i | 0 <= i < |r|
      ensures ElementCut(text, markers, r[i]) && BodyShape(r[i].texto)
      ensures r[i].kind == Inciso ==> !LooksLikeDate(TextBefore(text, r[i].startPos))
    {
      assert r[i] == MakeElement(text, markers, sps[i]);
      MakeElementCut(text, markers, sps[i]);
    }
  }

  /** Building an element keeps the start, so the sort key carries over. */
  lemma BuilderKeepsStart(text: string, markers: seq<Marker>)
    ensures forall sp :: ElementStart(Builder(text, markers)(sp)) == SpanStart(sp)
  {
    forall sp
      ensures ElementStart(Builder(text, markers)(sp)) == SpanStart(sp)
    {
      assert Builder(text, markers)(sp) == MakeElement(text, markers, sp);
    }
  }

  /** `parse_legal_text`: the articles, paragraphs, kept incisos and alíneas are
      built into dictionaries and stably sorted by `start_pos`. The result is a
      permutation of the built elements, ordered; each body is the normalised
      text up to the next merged marker; an inciso never follows something that
      looks like a date. */
  function ParseLegalText(text: string, scan: Scan): (r: seq<Element>)
    requires WellFormedScan(text, scan)
    ensures SortedBy(r, ElementStart)
    ensures multiset(r) == multiset(Map(Builder(text, FindAllMarkers(scan)), Extracted(text, scan)))
    ensures |r| == |scan.artigo| + |scan.paragrafo| + |scan.paragrafoUnico|
                   + |KeptIncisos(text, scan.inciso)| + |scan.alinea|
    ensures forall i :: 0 <= i < |r| ==> ElementCut(text, FindAllMarkers(scan), r[i]) && BodyShape(r[i].texto)
    ensures forall i :: 0 <= i < |r| && r[i].kind == Inciso ==> !LooksLikeDate(TextBefore(text, r[i].startPos))
  {
    var markers := FindAllMarkers(scan);
    var spans := Extracted(text, scan);
    var r := SortBy(Map(Builder(text, markers), spans), ElementStart);
    ParseLegalTextSpans(text, scan);
    PermutedOk(text, scan, SortBy(spans, SpanStart));
    BuiltCut(text, markers, SortBy(spans, SpanStart));
    r
  }

  /** Sorting the built elements is building the sorted spans. */
  lemma ParseLegalTextSpans(text: string, scan: Scan)
    requires WellFormedScan(text, scan)
    ensures var markers := FindAllMarkers(scan); var spans := Extracted(text, scan);
      SortBy(Map(Builder(text, markers), spans), ElementStart)
        == Map(Builder(text, markers), SortBy(spans, SpanStart))
  {
    var markers := FindAllMarkers(scan);
    BuilderKeepsStart(text, markers);
    SortByMap(Extracted(text, scan), Builder(text, markers), SpanStart, ElementStart);
  }

  /** There are no elements exactly when there is no article, paragraph or
      alínea match and no inciso match survives the date check. */
  lemma NoMarkersNoElements(text: string, scan: Scan)
    requires WellFormedScan(text, scan)
    ensures ParseLegalText(text, scan) == [] <==>
              && scan.artigo == [] && scan.paragrafo == [] && scan.paragrafoUnico == []
              && KeptIncisos(text, scan.inciso) == [] && scan.alinea == []
  {
  }

  /** Every "Parágrafo único" match is among the sorted spans as a paragraph numbered "único". */
  lemma UnicoSpanSorted(text: string, scan: Scan, k: nat)
    requires WellFormedScan(text, scan)
    requires k < |scan.paragrafoUnico|
    ensures Span(Paragrafo, "único", scan.paragrafoUnico[k]) in SortBy(Extracted(text, scan), SpanStart)
  {
    var sp := Span(Paragrafo, "único", scan.paragrafoUnico[k]);
    var p := ExtractParagraphs(scan);
    assert p[|scan.paragrafo| + k] == sp;
    var spans := Extracted(text, scan);
    assert sp in spans by {
      assert spans == ExtractArticles(scan) + p + ExtractIncisos(text, scan) + ExtractAlineas(scan);
    }
    assert sp in multiset(SortBy(spans, SpanStart));
  }

  /** The parsed elements are the sorted spans, each built into an element. */
  lemma ParsedAt(text: string, scan: Scan, j: nat)
    requires WellFormedScan(text, scan)
    requires j < |SortBy(Extracted(text, scan), SpanStart)|
    ensures j < |ParseLegalText(text, scan)|
    ensures ParseLegalText(text, scan)[j] == MakeElement(text, FindAllMarkers(scan), SortBy(Extracted(text, scan), SpanStart)[j])
  {
    var markers := FindAllMarkers(scan);
    var sorted := SortBy(Extracted(text, scan), SpanStart);
    ParseLegalTextSpans(text, scan);
    assert ParseLegalText(text, scan) == Map(Builder(text, markers), sorted);
  }

  /** Every "Parágrafo único" match yields a paragraph numbered "único". */
  lemma ParagrafoUnicoNumbered(text: string, scan: Scan, k: nat)
    requires WellFormedScan(text, scan)
    requires k < |scan.paragrafoUnico|
    ensures exists j :: 0 <= j < |ParseLegalText(text, scan)|
              && ParseLegalText(text, scan)[j].kind == Paragrafo
              && ParseLegalText(text, scan)[j].numero == "único"
              && ParseLegalText(text, scan)[j].startPos == scan.paragrafoUnico[k].start
  {
    var sp := Span(Paragrafo, "único", scan.paragrafoUnico[k]);
    var sorted := SortBy(Extracted(text, scan), SpanStart);
    UnicoSpanSorted(text, scan, k);
    var j :| 0 <= j < |sorted| && sorted[j] == sp;
    ParsedAt(text, scan, j);
    var e := MakeElement(text, FindAllMarkers(scan), sp);
    assert e.kind == Paragrafo && e.numero == "único" && e.startPos == sp.m.start;
    assert ParseLegalText(text, scan)[j] == e;
  }

  /** Any match -- a dropped inciso or an `item` included -- closes the body of
      every element that starts before it. */
  lemma EveryMatchBoundsBodies(text: string, scan: Scan, kind: MarkerKind, i: nat, start: nat)
    requires i < |MatchesOf(scan, kind)|
    requires start < MatchesOf(scan, kind)[i].start
    ensures NextMarkerStart(FindAllMarkers(scan), start).Some?
    ensures NextMarkerStart(FindAllMarkers(scan), start).value <= MatchesOf(scan, kind)[i].start
  {
    var markers := FindAllMarkers(scan);
    var m := MatchesOf(scan, kind)[i];
    var j :| 0 <= j < |markers| && markers[j] == Marker(m.start, kind, m);
  }

  // ---------------------------------------------------------------------------
  // clean_text

  predicate IsDash(c: char) {
    c == '\U{2013}' || c == '\U{2014}'
  }

  /** An en or em dash made a hyphen; any other character kept. */
  function DashToHyphen(c: char): char {
    if IsDash(c) then '-' else c
  }

  /** `text.replace('–', '-').replace('—', '-')`. */
  function ReplaceDashes(s: string): (r: string)
    ensures |r| == |s|
    ensures forall i :: 0 <= i < |s| ==> r[i] == (if IsDash(s[i]) then '-' else s[i])
  {
    seq(|s|, i requires 0 <= i < |s| => DashToHyphen(s[i]))
  }

  /** What `clean_text` produces: single spaces as the only whitespace, none at
      the ends, and no en or em dash. */
  predicate Clean(s: string) {
    && Trimmed(s)
    && Collapsed(s, Whitespace)
    && (forall i :: 0 <= i < |s| ==> !IsDash(s[i]))
  }

  /** Turning dashes into hyphens neither creates nor removes whitespace. */
  lemma ReplaceDashesSpaces(t: string)
    ensures forall j :: 0 <= j < |t| ==> (IsSpace(ReplaceDashes(t)[j]) <==> IsSpace(t[j]))
  {
    assert !IsSpace('-') && !IsSpace('\U{2013}') && !IsSpace('\U{2014}');
  }

  lemma ReplaceDashesClean(t: string)
    requires Trimmed(t) && Collapsed(t, Whitespace)
    ensures Clean(ReplaceDashes(t))
  {
    var r := ReplaceDashes(t);
    ReplaceDashesSpaces(t);
    assert forall j :: 0 <= j < |r| && IsSpace(r[j]) ==> r[j] == t[j];
  }

  lemma CleanShape(c: string)
    requires Collapsed(c, Whitespace)
    ensures Clean(ReplaceDashes(Strip(c)))
  {
    var t := Strip(c);
    var o := StripOffset(c);
    CollapsedSlice(c, o, o + |t|, Whitespace);
    ReplaceDashesClean(t);
  }

  /** `clean_text`: `re.sub(r'\s+', ' ', text).strip()` with en/em dashes made hyphens. */
  function CleanText(s: string): (r: string)
    ensures Clean(r)
    ensures Without(r, Whitespace) == ReplaceDashes(Without(s, Whitespace))
  {
    var c := CollapseRuns(s, Whitespace);
    CleanShape(c);
    assert Without(Strip(c), Whitespace) == Without(s, Whitespace) by {
      CollapseRunsKeeps(s, Whitespace, Whitespace);
      StripKeeps(c);
    }
    ReplaceDashesWithout(Strip(c));
    ReplaceDashes(Strip(c))
  }

  /** Replacing dashes distributes over concatenation. */
  lemma ReplaceDashesConcat(a: string, b: string)
    ensures ReplaceDashes(a + b) == ReplaceDashes(a) + ReplaceDashes(b)
  {
    var l, r := ReplaceDashes(a + b), ReplaceDashes(a) + ReplaceDashes(b);
    forall i | 0 <= i < |l|
      ensures l[i] == r[i]
    {
      if i < |a| {
        assert (a + b)[i] == a[i];
      } else {
        assert (a + b)[i] == b[i - |a|];
      }
    }
  }

  /** The first step of `Without` on a string of the form `[c] + t`. */
  lemma WithoutCons(c: char, t: string)
    ensures Without([c] + t, Whitespace) == (if IsSpace(c) then [] else [c]) + Without(t, Whitespace)
  {
    assert ([c] + t)[1..] == t;
  }

  lemma {:induction false} ReplaceDashesWithout(s: string)
    ensures Without(ReplaceDashes(s), Whitespace) == ReplaceDashes(Without(s, Whitespace))
  {
    if |s| > 0 {
      var c := s[0];
      var d := if IsDash(c) then '-' else c;
      var head := if IsSpace(c) then [] else [c];
      assert IsSpace(d) == IsSpace(c) by {
        ReplaceDashesSpaces([c]);
        assert ReplaceDashes([c])[0] == d;
      }
      assert ReplaceDashes(s) == [d] + ReplaceDashes(s[1..]) by {
        assert s == [c] + s[1..];
        ReplaceDashesConcat([c], s[1..]);
        assert ReplaceDashes([c]) == [d];
      }
      assert ReplaceDashes(head) == (if IsSpace(d) then [] else [d]);
      calc {
        Without(ReplaceDashes(s), Whitespace);
        == { WithoutCons(d, ReplaceDashes(s[1..])); }
        (if IsSpace(d) then [] else [d]) + Without(ReplaceDashes(s[1..]), Whitespace);
        == { ReplaceDashesWithout(s[1..]); }
        ReplaceDashes(head) + ReplaceDashes(Without(s[1..], Whitespace));
        == { ReplaceDashesConcat(head, Without(s[1..], Whitespace)); }
        ReplaceDashes(head + Without(s[1..], Whitespace));
        == { assert s == [c] + s[1..]; WithoutCons(c, s[1..]); }
        ReplaceDashes(Without(s, Whitespace));
      }
    }
  }

  /** `clean_text` leaves a string unchanged exactly when it is already clean. */
  lemma CleanTextFixedPoint(s: string)
    ensures CleanText(s) == s <==> Clean(s)
  {
    if Clean(s) {
      CollapseRunsFixedPoint(s, Whitespace);
    }
  }

  /** Cleaning twice is cleaning once. */
  lemma CleanTextIdempotent(s: string)
    ensures CleanText(CleanText(s)) == CleanText(s)
  {
    CleanTextFixedPoint(CleanText(s));
  }

  /** Making dashes hyphens relabels the layout and leaves its gaps alone. */
  lemma ShapeReplaceDashes(t: string)
    ensures Shape(ReplaceDashes(t)) == MapChars(DashToHyphen, Shape(t))
  {
    assert !IsSpace('-');
    ShapeRelabel(t, ReplaceDashes(t), DashToHyphen);
  }

  /** `clean_text` keeps the stripped layout of its input with every gap made
      a single space and every dash a hyphen, and it is the only string with
      single spaces as its whitespace that has that layout. */
  lemma CleanTextLayout(s: string)
    ensures Shape(CleanText(s)) == MapChars(DashToHyphen, Flat(TrimGaps(Shape(s))))
    ensures forall t :: Collapsed(t, Whitespace) && Shape(t) == Shape(CleanText(s)) ==> t == CleanText(s)
  {
    var c := CollapseRuns(s, Whitespace);
    ShapeCollapse(s, Whitespace);
    ShapeStrip(c);
    FlatTrim(Shape(s));
    ShapeReplaceDashes(Strip(c));
    forall t | Collapsed(t, Whitespace) && Shape(t) == Shape(CleanText(s))
      ensures t == CleanText(s)
    {
      CollapsedLayoutUnique(t, CleanText(s));
    }
  }
}
