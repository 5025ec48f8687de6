/**
  The order in which `_add_dispositivo_to_text` writes the dispositivos. The
  traversal is a pre-order walk: a unit's own lines, then its children's
  subtrees in list order, and the parentless units in list order. The
  independent reference is the lexicographic order of the units' paths (the
  list positions from the root down to the unit): an ancestor comes first,
  and otherwise the first position where the paths part decides.
*/
module RenderOrder {
  import opened Wrappers
  import opened Consolidation

  // ---------------------------------------------------------------------------
  // The reference order

  /** The positions from the root of `u` down to `u`. */
  function Path(units: seq<Unit>, u: nat): (r: seq<nat>)
    requires Arena(units) && u < |units|
    ensures |r| >= 1 && r[|r| - 1] == u
    decreases u
  {
    if units[u].parent.None? then [u] else Path(units, units[u].parent.value) + [u]
  }

  /** `p` comes before `q` in dictionary order: it is a proper prefix of `q`,
      or it is smaller at the first position where they differ. */
  predicate LexLess(p: seq<nat>, q: seq<nat>)
    decreases |p|
  {
    |q| > 0 && (|p| == 0 || p[0] < q[0] || (p[0] == q[0] && LexLess(p[1..], q[1..])))
  }

  /** `a` is written before `b`: a strict ancestor of `b`, or, where their
      ancestries part, on the branch with the smaller list position. */
  predicate Precedes(units: seq<Unit>, a: nat, b: nat)
    requires Arena(units) && a < |units| && b < |units|
  {
    LexLess(Path(units, a), Path(units, b))
  }

  /** Every line of unit `a` comes before every line of unit `b`. */
  predicate Before(lines: seq<Line>, a: nat, b: nat) {
    forall x, y :: 0 <= x < |lines| && 0 <= y < |lines| && lines[x].unit == a && lines[y].unit == b ==> x < y
  }

  // ---------------------------------------------------------------------------
  // Facts about the dictionary order

  /** A sequence never comes before one of its prefixes (nor before itself). */
  lemma {:induction false} LexNotBeforePrefix(p: seq<nat>, q: seq<nat>)
    requires |q| <= |p| && p[..|q|] == q
    ensures !LexLess(p, q)
    decreases |q|
  {
    if |q| > 0 {
      assert p[0] == q[0];
      assert p[1..][..|q[1..]|] == q[1..];
      LexNotBeforePrefix(p[1..], q[1..]);
    }
  }

  /** Sequences that agree up to `k` and where `p` is larger at `k` are in the other order. */
  lemma {:induction false} LexBranch(p: seq<nat>, q: seq<nat>, k: nat)
    requires k < |p| && k < |q| && p[..k] == q[..k] && p[k] > q[k]
    ensures !LexLess(p, q)
    decreases k
  {
    if k > 0 {
      assert p[0] == p[..k][0] == q[..k][0] == q[0];
      assert p[1..][..k - 1] == p[..k][1..] == q[..k][1..] == q[1..][..k - 1];
      LexBranch(p[1..], q[1..], k - 1);
    }
  }

  /** Two different sequences are ordered one way or the other. */
  lemma {:induction false} LexTotal(p: seq<nat>, q: seq<nat>)
    requires p != q
    ensures LexLess(p, q) || LexLess(q, p)
    decreases |p|
  {
    if |p| > 0 && |q| > 0 && p[0] == q[0] {
      assert p == [p[0]] + p[1..] && q == [q[0]] + q[1..];
      LexTotal(p[1..], q[1..]);
    }
  }

  // ---------------------------------------------------------------------------
  // Paths

  /** The path of `u` starts at its root. */
  lemma {:induction false} PathHead(units: seq<Unit>, u: nat)
    requires Arena(units) && u < |units|
    ensures Path(units, u)[0] == Root(units, u)
    decreases u
  {
    if units[u].parent.Some? {
      PathHead(units, units[u].parent.value);
    }
  }

  /** The path of an ancestor-or-self of `u` is a prefix of the path of `u`. */
  lemma {:induction false} PathBelow(units: seq<Unit>, c: nat, u: nat)
    requires Arena(units) && u < |units| && c < |units| && Below(units, c, u)
    ensures |Path(units, c)| <= |Path(units, u)| && Path(units, u)[..|Path(units, c)|] == Path(units, c)
    decreases u
  {
    if u != c {
      var p := units[u].parent.value;
      PathBelow(units, c, p);
      assert Path(units, u) == Path(units, p) + [u];
    }
  }

  /** A unit never precedes an ancestor-or-self of it. */
  lemma NotBeforeAncestor(units: seq<Unit>, a: nat, b: nat)
    requires Arena(units) && a < |units| && b < |units| && Below(units, b, a)
    ensures !Precedes(units, a, b)
  {
    PathBelow(units, b, a);
    LexNotBeforePrefix(Path(units, a), Path(units, b));
  }

  /** Below a common parent, a unit on a later child's branch never precedes
      one on an earlier child's branch. */
  lemma NotBeforeEarlierBranch(units: seq<Unit>, p: nat, a: nat, b: nat)
    requires Arena(units) && p < |units| && a < |units| && b < |units|
    requires a != p && Below(units, p, a) && b != p && Below(units, p, b)
    requires Toward(units, p, a) > Toward(units, p, b)
    ensures !Precedes(units, a, b)
  {
    var ta, tb := Toward(units, p, a), Toward(units, p, b);
    PathBelow(units, ta, a);
    PathBelow(units, tb, b);
    var k := |Path(units, p)|;
    assert Path(units, ta) == Path(units, p) + [ta];
    assert Path(units, tb) == Path(units, p) + [tb];
    assert Path(units, a)[..k] == Path(units, ta)[..k];
    assert Path(units, b)[..k] == Path(units, tb)[..k];
    assert Path(units, a)[k] == Path(units, ta)[k];
    assert Path(units, b)[k] == Path(units, tb)[k];
    LexBranch(Path(units, a), Path(units, b), k);
  }

  /** A unit under a later root never precedes one under an earlier root. */
  lemma NotBeforeEarlierRoot(units: seq<Unit>, a: nat, b: nat)
    requires Arena(units) && a < |units| && b < |units| && Root(units, a) > Root(units, b)
    ensures !Precedes(units, a, b)
  {
    PathHead(units, a);
    PathHead(units, b);
    LexBranch(Path(units, a), Path(units, b), 0);
  }

  /** Different units have different paths. */
  lemma PathsDiffer(units: seq<Unit>, a: nat, b: nat)
    requires Arena(units) && a < |units| && b < |units| && a != b
    ensures Path(units, a) != Path(units, b)
  {
  }

  // ---------------------------------------------------------------------------
  // Lines and concatenation

  lemma {:induction false} CountZeroNone(lines: seq<Line>, u: nat)
    requires Count(lines, u) == 0
    ensures forall x :: 0 <= x < |lines| ==> lines[x].unit != u
  {
    if |lines| > 0 {
      CountZeroNone(lines[1..], u);
      assert forall x :: 0 < x < |lines| ==> lines[x] == lines[1..][x - 1];
    }
  }

  /** A unit with lines has a line at some position. */
  lemma {:induction false} CountPositive(lines: seq<Line>, u: nat) returns (x: nat)
    requires Count(lines, u) > 0
    ensures x < |lines| && lines[x].unit == u
  {
    if lines[0].unit != u {
      x := CountPositive(lines[1..], u);
      assert lines[x + 1] == lines[1..][x];
      x := x + 1;
    } else {
      x := 0;
    }
  }

  /** Order carries over a concatenation when `b` has no line in the first
      part or `a` has none in the second. */
  lemma BeforeConcat(first: seq<Line>, rest: seq<Line>, a: nat, b: nat)
    requires Before(first, a, b) && Before(rest, a, b)
    requires Count(first, b) == 0 || Count(rest, a) == 0
    ensures Before(first + rest, a, b)
  {
    var all := first + rest;
    if Count(first, b) == 0 {
      CountZeroNone(first, b);
    } else {
      CountZeroNone(rest, a);
    }
    forall x, y | 0 <= x < |all| && 0 <= y < |all| && all[x].unit == a && all[y].unit == b
      ensures x < y
    {
      if x >= |first| {
        if y >= |first| {
          assert all[x] == rest[x - |first|] && all[y] == rest[y - |first|];
        } else {
          assert false;
        }
      }
    }
  }

  /** A unit's own lines belong to it alone. */
  lemma OwnOnly(units: seq<Unit>, st: Partition, i: nat, level: nat)
    requires i < |units|
    ensures forall x :: 0 <= x < |OwnLines(units, st, i, level)| ==> OwnLines(units, st, i, level)[x].unit == i
  {
  }

  // ---------------------------------------------------------------------------
  // The traversal writes units in path order

  /** When `a` precedes `b`, the child of `p` at `j` and the later children
      do not hold `b` and `a` respectively. */
  lemma ChildrenApart(units: seq<Unit>, st: Partition, p: nat, j: nat, level: nat, a: nat, b: nat)
    requires Arena(units) && p < |units| && j < |units| && a < |units| && b < |units| && Precedes(units, a, b)
    ensures Count(if units[j].parent == Some(p) then RenderUnit(units, st, j, level + 1) else [], b) == 0
            || Count(RenderChildren(units, st, p, j + 1, level), a) == 0
  {
    ChildStartCount(units, st, p, j, level, b);
    ChildrenCount(units, st, p, j + 1, level, a);
    if a != p && Below(units, p, a) && b != p && Below(units, p, b) && Toward(units, p, a) > Toward(units, p, b) {
      NotBeforeEarlierBranch(units, p, a, b);
    }
  }

  /** When `a` precedes `b`, the root at `j` and the later roots do not hold
      `b` and `a` respectively. */
  lemma RootsApart(units: seq<Unit>, st: Partition, j: nat, a: nat, b: nat)
    requires Arena(units) && j < |units| && a < |units| && b < |units| && Precedes(units, a, b)
    ensures Count(if units[j].parent.None? then RenderUnit(units, st, j, 0) else [], b) == 0
            || Count(RenderRoots(units, st, j + 1), a) == 0
  {
    RootStartCount(units, st, j, b);
    RootsCount(units, st, j + 1, a);
    if Root(units, a) > Root(units, b) {
      NotBeforeEarlierRoot(units, a, b);
    }
  }

  lemma {:induction false} UnitOrder(units: seq<Unit>, st: Partition, i: nat, level: nat, a: nat, b: nat)
    requires Arena(units) && i < |units| && a < |units| && b < |units| && Precedes(units, a, b)
    ensures Before(RenderUnit(units, st, i, level), a, b)
    decreases |units| - i, 1, 0, 0
  {
    var own := OwnLines(units, st, i, level);
    OwnOnly(units, st, i, level);
    LexNotBeforePrefix(Path(units, a), Path(units, a));
    assert Before(own, a, b);
    if Revoked(units, st, i) {
      assert RenderUnit(units, st, i, level) == own + [];
    } else {
      var ch := RenderChildren(units, st, i, 0, level);
      ChildrenOrder(units, st, i, 0, level, a, b);
      OwnCount(units, st, i, level, b);
      ChildrenCount(units, st, i, 0, level, a);
      if b == i && a != i && Below(units, i, a) {
        NotBeforeAncestor(units, a, b);
      }
      BeforeConcat(own, ch, a, b);
    }
  }

  lemma ChildStartOrder(units: seq<Unit>, st: Partition, p: nat, j: nat, level: nat, a: nat, b: nat)
    requires Arena(units) && p < |units| && j < |units| && a < |units| && b < |units| && Precedes(units, a, b)
    ensures Before(if units[j].parent == Some(p) then RenderUnit(units, st, j, level + 1) else [], a, b)
    decreases |units| - p, 0, |units| - j, 0
  {
    if units[j].parent == Some(p) {
      UnitOrder(units, st, j, level + 1, a, b);
    }
  }

  lemma {:induction false} ChildrenOrder(units: seq<Unit>, st: Partition, p: nat, j: nat, level: nat, a: nat, b: nat)
    requires Arena(units) && p < |units| && j <= |units| && a < |units| && b < |units| && Precedes(units, a, b)
    ensures Before(RenderChildren(units, st, p, j, level), a, b)
    decreases |units| - p, 0, |units| - j, 1
  {
    if j < |units| {
      var first := if units[j].parent == Some(p) then RenderUnit(units, st, j, level + 1) else [];
      var rest := RenderChildren(units, st, p, j + 1, level);
      assert RenderChildren(units, st, p, j, level) == first + rest;
      ChildStartOrder(units, st, p, j, level, a, b);
      ChildrenOrder(units, st, p, j + 1, level, a, b);
      ChildrenApart(units, st, p, j, level, a, b);
      BeforeConcat(first, rest, a, b);
    }
  }

  lemma {:induction false} RootsOrder(units: seq<Unit>, st: Partition, j: nat, a: nat, b: nat)
    requires Arena(units) && j <= |units| && a < |units| && b < |units| && Precedes(units, a, b)
    ensures Before(RenderRoots(units, st, j), a, b)
    decreases |units| - j
  {
    if j < |units| {
      var first := if units[j].parent.None? then RenderUnit(units, st, j, 0) else [];
      var rest := RenderRoots(units, st, j + 1);
      assert RenderRoots(units, st, j) == first + rest;
      if units[j].parent.None? {
        UnitOrder(units, st, j, 0, a, b);
      }
      RootsOrder(units, st, j + 1, a, b);
      RootsApart(units, st, j, a, b);
      BeforeConcat(first, rest, a, b);
    }
  }

  /** In the body of the consolidated text, of two different units that are
      written (no revoked ancestor), every line of `a` comes before every line
      of `b` exactly when `a` precedes `b` in path order: an ancestor before
      its descendants, siblings and their subtrees in list order, the
      parentless units in list order. */
  lemma BodyOrder(units: seq<Unit>, st: Partition, a: nat, b: nat)
    requires Arena(units) && a < |units| && b < |units| && a != b
    requires Visible(units, st, a) && Visible(units, st, b)
    ensures Before(RenderRoots(units, st, 0), a, b) <==> Precedes(units, a, b)
  {
    var body := RenderRoots(units, st, 0);
    if Precedes(units, a, b) {
      RootsOrder(units, st, 0, a, b);
    } else if Before(body, a, b) {
      PathsDiffer(units, a, b);
      LexTotal(Path(units, a), Path(units, b));
      RootsOrder(units, st, 0, b, a);
      BodyCount(units, st, a);
      BodyCount(units, st, b);
      var x := CountPositive(body, a);
      var y := CountPositive(body, b);
      assert false;
    }
  }

  // ---------------------------------------------------------------------------
  // The annotation follows its unit's text line

  /** Every annotation line comes directly after a text line of the same unit. */
  predicate AnnotationsAfterText(lines: seq<Line>) {
    forall y :: 0 <= y < |lines| && lines[y].kind == AnnotationLine ==>
      0 < y && lines[y - 1].unit == lines[y].unit && lines[y - 1].kind == TextLine
  }

  lemma AnnotationsConcat(first: seq<Line>, rest: seq<Line>)
    requires AnnotationsAfterText(first) && AnnotationsAfterText(rest)
    ensures AnnotationsAfterText(first + rest)
  {
    var all := first + rest;
    forall y | 0 <= y < |all| && all[y].kind == AnnotationLine
      ensures 0 < y && all[y - 1].unit == all[y].unit && all[y - 1].kind == TextLine
    {
      if y >= |first| {
        assert all[y] == rest[y - |first|];
        assert all[y - 1] == rest[y - 1 - |first|];
      }
    }
  }

  lemma {:induction false} UnitAnnotations(units: seq<Unit>, st: Partition, i: nat, level: nat)
    requires Arena(units) && i < |units|
    ensures AnnotationsAfterText(RenderUnit(units, st, i, level))
    decreases |units| - i, 1, 0
  {
    var own := OwnLines(units, st, i, level);
    assert AnnotationsAfterText(own);
    if Revoked(units, st, i) {
      assert RenderUnit(units, st, i, level) == own + [];
    } else {
      ChildrenAnnotations(units, st, i, 0, level);
      AnnotationsConcat(own, RenderChildren(units, st, i, 0, level));
    }
  }

  lemma {:induction false} ChildrenAnnotations(units: seq<Unit>, st: Partition, p: nat, j: nat, level: nat)
    requires Arena(units) && p < |units| && j <= |units|
    ensures AnnotationsAfterText(RenderChildren(units, st, p, j, level))
    decreases |units| - p, 0, |units| - j
  {
    if j < |units| {
      var first := if units[j].parent == Some(p) then RenderUnit(units, st, j, level + 1) else [];
      var rest := RenderChildren(units, st, p, j + 1, level);
      assert RenderChildren(units, st, p, j, level) == first + rest;
      if units[j].parent == Some(p) {
        UnitAnnotations(units, st, j, level + 1);
      }
      ChildrenAnnotations(units, st, p, j + 1, level);
      AnnotationsConcat(first, rest);
    }
  }

  lemma {:induction false} RootsAnnotations(units: seq<Unit>, st: Partition, j: nat)
    requires Arena(units) && j <= |units|
    ensures AnnotationsAfterText(RenderRoots(units, st, j))
    decreases |units| - j
  {
    if j < |units| {
      var first := if units[j].parent.None? then RenderUnit(units, st, j, 0) else [];
      var rest := RenderRoots(units, st, j + 1);
      assert RenderRoots(units, st, j) == first + rest;
      if units[j].parent.None? {
        UnitAnnotations(units, st, j, 0);
      }
      RootsAnnotations(units, st, j + 1);
      AnnotationsConcat(first, rest);
    }
  }

  /** In the body, each alteration note sits on the line right after its
      unit's text line. */
  lemma BodyAnnotations(units: seq<Unit>, st: Partition)
    requires Arena(units)
    ensures AnnotationsAfterText(RenderRoots(units, st, 0))
  {
    RootsAnnotations(units, st, 0);
  }
}
