/**
  The layout of a string as the whitespace rewrites see it: its
  non-whitespace characters in order and, between them, one gap for every
  maximal run of whitespace, recording whether the run holds a line break.
  Two strings with the same layout differ only in how each gap is spelt.
  The lemmas say how `strip`, the run collapses, the newline collapse and
  `'\n'.join` act on layouts.
*/
module TextShape {
  import opened PyText

  datatype Tok = Ch(c: char) | Gap(newline: bool)

  /** The token of one character on its own. */
  function TokOf(c: char): Tok {
    if IsSpace(c) then Gap(c == '\n') else Ch(c)
  }

  /** `t` in front of `p`; two gaps that meet become one. */
  function Push(t: Tok, p: seq<Tok>): (r: seq<Tok>)
    ensures |r| > 0 && (r[0].Gap? <==> t.Gap?)
  {
    if t.Gap? && |p| > 0 && p[0].Gap? then [Gap(t.newline || p[0].newline)] + p[1..] else [t] + p
  }

  /** The layout of `s`. */
  function Shape(s: string): (r: seq<Tok>)
    ensures |r| == 0 <==> |s| == 0
    ensures |s| > 0 ==> (r[0].Gap? <==> IsSpace(s[0]))
  {
    if |s| == 0 then [] else Push(TokOf(s[0]), Shape(s[1..]))
  }

  /** Every character of `w` is whitespace. */
  predicate AllSpace(w: string) {
    forall i :: 0 <= i < |w| ==> IsSpace(w[i])
  }

  /** The layout with the gap at each end, if any, removed. */
  function TrimGaps(p: seq<Tok>): seq<Tok> {
    var q := if |p| > 0 && p[|p| - 1].Gap? then p[..|p| - 1] else p;
    if |q| > 0 && q[0].Gap? then q[1..] else q
  }

  /** Every gap made a gap without a line break. */
  function Flat(p: seq<Tok>): (r: seq<Tok>)
    ensures |r| == |p|
    ensures forall i :: 0 <= i < |p| ==> r[i] == (if p[i].Gap? then Gap(false) else p[i])
  {
    seq(|p|, i requires 0 <= i < |p| => if p[i].Gap? then Gap(false) else p[i])
  }

  /** Every character token relabelled by `f`; gaps stay. */
  function MapChars(f: char -> char, p: seq<Tok>): (r: seq<Tok>)
    ensures |r| == |p|
    ensures forall i :: 0 <= i < |p| ==> r[i] == (if p[i].Ch? then Ch(f(p[i].c)) else p[i])
  {
    seq(|p|, i requires 0 <= i < |p| => if p[i].Ch? then Ch(f(p[i].c)) else p[i])
  }

  /** Two layouts joined by a line break, where an empty side adds nothing. */
  function JoinLayouts(p: seq<Tok>, q: seq<Tok>): seq<Tok> {
    if p == [] then q else if q == [] then p else p + [Gap(true)] + q
  }

  // ---------------------------------------------------------------------------
  // Layouts of concatenations

  lemma Assoc<T>(a: seq<T>, b: seq<T>, c: seq<T>)
    ensures a + b + c == a + (b + c)
  { }

  lemma PushGaps(a: bool, b: bool, p: seq<Tok>)
    ensures Push(Gap(a), Push(Gap(b), p)) == Push(Gap(a || b), p)
  {
    if |p| > 0 && p[0].Gap? {
      assert Push(Gap(b), p)[1..] == p[1..];
    } else {
      assert Push(Gap(b), p)[1..] == p;
    }
  }

  lemma PushAppend(t: Tok, p: seq<Tok>, q: seq<Tok>)
    requires |p| > 0
    ensures Push(t, p + q) == Push(t, p) + q
  {
    assert (p + q)[0] == p[0];
    if t.Gap? && p[0].Gap? {
      assert (p + q)[1..] == p[1..] + q;
      assert [Gap(t.newline || p[0].newline)] + (p[1..] + q) == [Gap(t.newline || p[0].newline)] + p[1..] + q;
    } else {
      assert [t] + (p + q) == [t] + p + q;
    }
  }

  /** A run of whitespace in front of `t` is one gap in front of `t`'s layout. */
  /** A leading whitespace character is a gap in front of the rest. */
  lemma SpaceHead(w: string, t: string)
    requires |w| > 0 && IsSpace(w[0])
    ensures Shape(w + t) == Push(Gap(w[0] == '\n'), Shape(w[1..] + t))
  {
    var u := w + t;
    assert u[0] == w[0] && u[1..] == w[1..] + t;
  }

  lemma NewlineInCons(w: string)
    requires |w| > 0
    ensures '\n' in w <==> w[0] == '\n' || '\n' in w[1..]
  {
    assert w == [w[0]] + w[1..];
  }

  lemma {:induction false} ShapeSpaces(w: string, t: string)
    requires |w| > 0 && AllSpace(w)
    ensures Shape(w + t) == Push(Gap('\n' in w), Shape(t))
    decreases |w|
  {
    SpaceHead(w, t);
    NewlineInCons(w);
    if |w| == 1 {
      assert w[1..] + t == t;
    } else {
      assert AllSpace(w[1..]) by {
        assert forall i :: 0 <= i < |w| - 1 ==> w[1..][i] == w[i + 1];
      }
      ShapeSpaces(w[1..], t);
      PushGaps(w[0] == '\n', '\n' in w[1..], Shape(t));
    }
  }

  /** A non-empty run of whitespace has a single gap as its layout. */
  lemma SpacesShape(w: string)
    requires |w| > 0 && AllSpace(w)
    ensures Shape(w) == [Gap('\n' in w)]
  {
    ShapeSpaces(w, "");
    assert w + "" == w;
  }

  /** Where a character meets the cut, the layouts simply concatenate. */
  lemma {:induction false} ShapeSplit(a: string, b: string)
    requires a == [] || b == [] || !IsSpace(a[|a| - 1]) || !IsSpace(b[0])
    ensures Shape(a + b) == Shape(a) + Shape(b)
    decreases |a|
  {
    if |a| == 0 {
      assert a + b == b;
    } else if |b| == 0 {
      assert a + b == a;
    } else {
      var u := a + b;
      assert u[0] == a[0];
      assert u[1..] == a[1..] + b;
      if |a| == 1 {
        assert a[1..] + b == b;
        assert a[1..] == [];
      } else {
        ShapeSplit(a[1..], b);
        PushAppend(TokOf(a[0]), Shape(a[1..]), Shape(b));
      }
    }
  }

  /** The layout ends with a gap exactly when the string ends with whitespace. */
  lemma {:induction false} ShapeLast(s: string)
    requires |s| > 0
    ensures var r := Shape(s); r[|r| - 1].Gap? <==> IsSpace(s[|s| - 1])
    decreases |s|
  {
    if |s| > 1 {
      ShapeLast(s[1..]);
      assert s[1..][|s| - 2] == s[|s| - 1];
      PushLast(TokOf(s[0]), Shape(s[1..]));
    } else {
      assert Shape(s) == Push(TokOf(s[0]), []);
    }
  }

  lemma PushLast(t: Tok, p: seq<Tok>)
    requires |p| > 0
    ensures var r := Push(t, p); r[|r| - 1].Gap? == p[|p| - 1].Gap?
  {
  }

  /** A trimmed non-empty string's layout starts and ends with a character. */
  lemma TrimmedShape(z: string)
    requires |z| > 0 && Trimmed(z)
    ensures var r := Shape(z); |r| > 0 && r[0].Ch? && r[|r| - 1].Ch?
  {
    ShapeLast(z);
  }

  // ---------------------------------------------------------------------------
  // strip

  lemma TrimAround(l: seq<Tok>, z: seq<Tok>, r: seq<Tok>)
    requires |l| <= 1 && (|l| == 1 ==> l[0].Gap?)
    requires |r| <= 1 && (|r| == 1 ==> r[0].Gap?)
    requires |z| > 0 && z[0].Ch? && z[|z| - 1].Ch?
    ensures TrimGaps(l + z + r) == z
  {
    var p := l + z + r;
    var q := l + z;
    assert |r| == 1 ==> p[..|p| - 1] == q;
    assert |r| == 0 ==> p == q;
    assert q[|q| - 1] == z[|z| - 1];
    assert |l| == 1 ==> q[1..] == z;
    assert |l| == 0 ==> q == z;
  }

  /** Whitespace around a trimmed string is exactly what trimming the layout removes. */
  lemma Sandwich(w1: string, z: string, w2: string)
    requires AllSpace(w1) && AllSpace(w2) && Trimmed(z)
    ensures TrimGaps(Shape(w1 + z + w2)) == Shape(z)
  {
    if |z| == 0 {
      BlankSandwich(w1, z, w2);
    } else {
      TrimmedShape(z);
      ShapeSplit(z, w2);
      assert (z + w2)[0] == z[0];
      ShapeSplit(w1, z + w2);
      Assoc(w1, z, w2);
      Assoc(Shape(w1), Shape(z), Shape(w2));
      if |w1| > 0 {
        SpacesShape(w1);
      }
      if |w2| > 0 {
        SpacesShape(w2);
      }
      TrimAround(Shape(w1), Shape(z), Shape(w2));
    }
  }

  lemma BlankSandwich(w1: string, z: string, w2: string)
    requires AllSpace(w1) && AllSpace(w2) && z == []
    ensures TrimGaps(Shape(w1 + z + w2)) == []
  {
    var w := w1 + z + w2;
    assert AllSpace(w) by {
      assert forall i :: 0 <= i < |w| ==> w[i] == (if i < |w1| then w1[i] else w2[i - |w1|]);
    }
    if |w| > 0 {
      SpacesShape(w);
      assert TrimGaps([Gap('\n' in w)]) == [];
    }
  }

  lemma Thirds<T>(s: seq<T>, i: nat, j: nat)
    requires i <= j <= |s|
    ensures s == s[..i] + s[i..j] + s[j..]
  {
    assert s[..j] == s[..i] + s[i..j];
    assert s == s[..j] + s[j..];
  }

  lemma SpacePrefix(s: string, n: nat)
    requires n <= |s|
    requires forall j :: 0 <= j < n ==> IsSpace(s[j])
    ensures AllSpace(s[..n])
  {
    assert forall j :: 0 <= j < n ==> s[..n][j] == s[j];
  }

  lemma SpaceSuffix(s: string, e: nat)
    requires e <= |s|
    requires forall j :: e <= j < |s| ==> IsSpace(s[j])
    ensures AllSpace(s[e..])
  {
    assert forall j :: 0 <= j < |s| - e ==> s[e..][j] == s[e + j];
  }

  /** `strip` splits a string into whitespace, the stripped text, whitespace. */
  lemma StripParts(s: string) returns (pre: string, post: string)
    ensures s == pre + Strip(s) + post && AllSpace(pre) && AllSpace(post)
  {
    var o, r := StripOffset(s), Strip(s);
    pre, post := s[..o], s[o + |r|..];
    SpacePrefix(s, o);
    SpaceSuffix(s, o + |r|);
    Thirds(s, o, o + |r|);
  }

  /** `strip` removes the gaps at the ends of the layout and nothing else. */
  lemma ShapeStrip(s: string)
    ensures Shape(Strip(s)) == TrimGaps(Shape(s))
  {
    var pre, post := StripParts(s);
    Sandwich(pre, Strip(s), post);
  }

  /** A stripped string's layout has no gap at either end. */
  lemma StrippedShape(s: string)
    ensures TrimGaps(Shape(Strip(s))) == Shape(Strip(s))
  {
    ShapeStrip(Strip(s));
  }

  // ---------------------------------------------------------------------------
  // The run collapses

  lemma FlatPush(t: Tok, p: seq<Tok>)
    ensures Flat(Push(t, p)) == Push(if t.Gap? then Gap(false) else t, Flat(p))
  {
    if t.Gap? && |p| > 0 && p[0].Gap? {
      assert Flat(Push(t, p)) == [Gap(false)] + Flat(p[1..]);
      assert Flat(p)[1..] == Flat(p[1..]);
    } else {
      assert Flat(Push(t, p)) == [if t.Gap? then Gap(false) else t] + Flat(p);
    }
  }

  lemma FlatTrim(p: seq<Tok>)
    ensures TrimGaps(Flat(p)) == Flat(TrimGaps(p))
  {
    var q := if |p| > 0 && p[|p| - 1].Gap? then p[..|p| - 1] else p;
    if |p| > 0 && p[|p| - 1].Gap? {
      assert Flat(q) == Flat(p)[..|p| - 1];
    }
    if |q| > 0 {
      assert Flat(q[1..]) == Flat(q)[1..];
    }
  }

  /** A leading run of class characters is whitespace, and holds no line
      break when the class is `[ \t]`. */
  lemma ClassRun(s: string, k: CharClass)
    ensures AllSpace(s[..RunLength(s, k)])
    ensures k == Blanks ==> '\n' !in s[..RunLength(s, k)]
  {
    var n := RunLength(s, k);
    forall j | 0 <= j < n
      ensures IsSpace(s[j])
    {
      assert InClass(s[j], k);
    }
    SpacePrefix(s, n);
    if k == Blanks {
      assert forall j :: 0 <= j < n ==> s[..n][j] == s[j];
    }
  }

  /** A leading run of class characters is one gap, without a line break
      when the class is `[ \t]`. */
  lemma RunGap(s: string, k: CharClass)
    requires k != Newlines && |s| > 0 && InClass(s[0], k)
    ensures var n := RunLength(s, k);
      && Shape(s) == Push(Gap('\n' in s[..n]), Shape(s[n..]))
      && (k == Blanks ==> '\n' !in s[..n])
  {
    var n := RunLength(s, k);
    ClassRun(s, k);
    Thirds(s, n, n);
    assert s[n..n] == [];
    ShapeSpaces(s[..n], s[n..]);
  }

  /** A leading run of newlines, and the block the newline collapse puts in
      its place, are each one gap with a line break. */
  lemma NewlineRunGap(s: string)
    requires |s| > 0 && s[0] == '\n'
    ensures var n := RunLength(s, Newlines);
      var block := if n >= 3 then "\n\n" else s[..n];
      && Shape(s) == Push(Gap(true), Shape(s[n..]))
      && |block| > 0 && AllSpace(block) && '\n' in block
  {
    var n := RunLength(s, Newlines);
    ClassRun(s, Newlines);
    Thirds(s, n, n);
    assert s[n..n] == [];
    assert s[..n][0] == '\n';
    ShapeSpaces(s[..n], s[n..]);
  }

  /** `re.sub(r'[ \t]+', ' ', s)` keeps the layout; `re.sub(r'\s+', ' ', s)`
      keeps it except that no gap holds a line break any more. */
  lemma {:induction false} ShapeCollapse(s: string, k: CharClass)
    requires k != Newlines
    ensures Shape(CollapseRuns(s, k)) == if k == Whitespace then Flat(Shape(s)) else Shape(s)
    decreases |s|
  {
    if |s| > 0 {
      if InClass(s[0], k) {
        var n := RunLength(s, k);
        var rest := CollapseRuns(s[n..], k);
        ShapeCollapse(s[n..], k);
        RunGap(s, k);
        assert CollapseRuns(s, k) == [' '] + rest;
        ShapeSpaces([' '], rest);
        if k == Whitespace {
          FlatPush(Gap('\n' in s[..n]), Shape(s[n..]));
        }
      } else {
        var rest := CollapseRuns(s[1..], k);
        ShapeCollapse(s[1..], k);
        assert CollapseRuns(s, k) == [s[0]] + rest;
        assert ([s[0]] + rest)[1..] == rest;
        if k == Whitespace {
          FlatPush(TokOf(s[0]), Shape(s[1..]));
        }
      }
    }
  }

  /** `re.sub(r'\n{3,}', '\n\n', s)` keeps the layout. */
  lemma {:induction false} ShapeCollapseNewlines(s: string)
    ensures Shape(CollapseNewlines(s)) == Shape(s)
    decreases |s|
  {
    if |s| > 0 {
      if s[0] == '\n' {
        var n := RunLength(s, Newlines);
        var block := if n >= 3 then "\n\n" else s[..n];
        var rest := CollapseNewlines(s[n..]);
        ShapeCollapseNewlines(s[n..]);
        NewlineRunGap(s);
        assert CollapseNewlines(s) == block + rest;
        ShapeSpaces(block, rest);
      } else {
        var rest := CollapseNewlines(s[1..]);
        ShapeCollapseNewlines(s[1..]);
        assert CollapseNewlines(s) == [s[0]] + rest;
        assert ([s[0]] + rest)[1..] == rest;
      }
    }
  }

  // ---------------------------------------------------------------------------
  // Joining with a line break

  /** Two trimmed non-empty texts around a run of whitespace holding a line break. */
  lemma BreakBetween(kx: string, m: string, ky: string)
    requires |kx| > 0 && |ky| > 0 && Trimmed(kx) && Trimmed(ky)
    requires |m| > 0 && AllSpace(m) && '\n' in m
    ensures Trimmed(kx + m + ky)
    ensures Shape(kx + m + ky) == Shape(kx) + [Gap(true)] + Shape(ky)
  {
    ShapeSplit(kx, m + ky);
    Assoc(kx, m, ky);
    ShapeSpaces(m, ky);
    TrimmedShape(ky);
  }

  lemma AllSpaceConcat(a: string, b: string)
    requires AllSpace(a) && AllSpace(b)
    ensures AllSpace(a + b)
  {
    assert forall i :: 0 <= i < |a + b| ==> (a + b)[i] == (if i < |a| then a[i] else b[i - |a|]);
  }

  /** The whitespace on both sides of an inserted line break. */
  lemma BreakRun(sx: string, py: string)
    requires AllSpace(sx) && AllSpace(py)
    ensures AllSpace(sx + "\n" + py) && '\n' in sx + "\n" + py
  {
    AllSpaceConcat(sx, "\n");
    AllSpaceConcat(sx + "\n", py);
    assert (sx + "\n" + py)[|sx|] == '\n';
  }

  lemma Regroup<T>(a: seq<T>, b: seq<T>, c: seq<T>, d: seq<T>, e: seq<T>, f: seq<T>, g: seq<T>)
    ensures (a + b + c) + d + (e + f + g) == (a + b + c + d + e) + f + g
    ensures (a + b + c) + d + (e + f + g) == a + b + (c + d + e + f + g)
    ensures (a + b + c) + d + (e + f + g) == a + (b + (c + d + e) + f) + g
  { }

  /** The left side is blank: only the right side's text is left. */
  lemma JoinBlankLeft(px: string, kx: string, sx: string, py: string, ky: string, sy: string)
    requires AllSpace(px) && AllSpace(sx) && AllSpace(py) && AllSpace(sy)
    requires kx == [] && Trimmed(ky)
    ensures TrimGaps(Shape((px + kx + sx) + "\n" + (py + ky + sy))) == Shape(ky)
  {
    Regroup(px, kx, sx, "\n", py, ky, sy);
    AllSpaceConcat(px, kx);
    AllSpaceConcat(px + kx, sx);
    AllSpaceConcat(px + kx + sx, "\n");
    AllSpaceConcat(px + kx + sx + "\n", py);
    Sandwich(px + kx + sx + "\n" + py, ky, sy);
  }

  /** The right side is blank: only the left side's text is left. */
  lemma JoinBlankRight(px: string, kx: string, sx: string, py: string, ky: string, sy: string)
    requires AllSpace(px) && AllSpace(sx) && AllSpace(py) && AllSpace(sy)
    requires Trimmed(kx) && ky == []
    ensures TrimGaps(Shape((px + kx + sx) + "\n" + (py + ky + sy))) == Shape(kx)
  {
    Regroup(px, kx, sx, "\n", py, ky, sy);
    AllSpaceConcat(sx, "\n");
    AllSpaceConcat(sx + "\n", py);
    AllSpaceConcat(sx + "\n" + py, ky);
    AllSpaceConcat(sx + "\n" + py + ky, sy);
    Sandwich(px, kx, sx + "\n" + py + ky + sy);
  }

  /** Both sides hold text: one line-break gap separates them. */
  lemma JoinBoth(px: string, kx: string, sx: string, py: string, ky: string, sy: string)
    requires AllSpace(px) && AllSpace(sx) && AllSpace(py) && AllSpace(sy)
    requires |kx| > 0 && |ky| > 0 && Trimmed(kx) && Trimmed(ky)
    ensures TrimGaps(Shape((px + kx + sx) + "\n" + (py + ky + sy))) == Shape(kx) + [Gap(true)] + Shape(ky)
  {
    Regroup(px, kx, sx, "\n", py, ky, sy);
    BreakRun(sx, py);
    BreakBetween(kx, sx + "\n" + py, ky);
    Sandwich(px, kx + (sx + "\n" + py) + ky, sy);
  }

  /** The stripped layout of `x + "\n" + y` is those of `x` and `y` joined
      by a line-break gap, or just one of them when the other is blank. */
  lemma NewlineJoin(x: string, y: string)
    ensures TrimGaps(Shape(x + "\n" + y)) == JoinLayouts(TrimGaps(Shape(x)), TrimGaps(Shape(y)))
  {
    var px, sx := StripParts(x);
    var py, sy := StripParts(y);
    ShapeStrip(x);
    ShapeStrip(y);
    var kx, ky := Strip(x), Strip(y);
    if |kx| == 0 {
      JoinBlankLeft(px, kx, sx, py, ky, sy);
    } else if |ky| == 0 {
      JoinBlankRight(px, kx, sx, py, ky, sy);
    } else {
      JoinBoth(px, kx, sx, py, ky, sy);
      TrimmedShape(kx);
      TrimmedShape(ky);
    }
  }

  // ---------------------------------------------------------------------------
  // Relabelling characters

  lemma MapCharsPush(f: char -> char, t: Tok, p: seq<Tok>)
    ensures MapChars(f, Push(t, p)) == Push(if t.Ch? then Ch(f(t.c)) else t, MapChars(f, p))
  {
    if t.Gap? && |p| > 0 && p[0].Gap? {
      assert MapChars(f, Push(t, p)) == [Gap(t.newline || p[0].newline)] + MapChars(f, p[1..]);
      assert MapChars(f, p)[1..] == MapChars(f, p[1..]);
    } else {
      assert MapChars(f, Push(t, p)) == [if t.Ch? then Ch(f(t.c)) else t] + MapChars(f, p);
    }
  }

  /** Changing non-whitespace characters into non-whitespace characters
      relabels the layout and leaves its gaps alone. */
  lemma {:induction false} ShapeRelabel(s: string, t: string, f: char -> char)
    requires |t| == |s|
    requires forall c :: !IsSpace(c) ==> !IsSpace(f(c))
    requires forall i :: 0 <= i < |s| ==> t[i] == (if IsSpace(s[i]) then s[i] else f(s[i]))
    ensures Shape(t) == MapChars(f, Shape(s))
    decreases |s|
  {
    if |s| > 0 {
      ShapeRelabel(s[1..], t[1..], f);
      MapCharsPush(f, TokOf(s[0]), Shape(s[1..]));
      assert TokOf(t[0]) == (if TokOf(s[0]).Ch? then Ch(f(s[0])) else TokOf(s[0]));
    }
  }

  // ---------------------------------------------------------------------------
  // A collapsed string is determined by its layout

  /** Where no whitespace follows a leading whitespace character, the first
      character is the first token on its own. */
  lemma HeadTok(s: string)
    requires |s| > 0
    requires |s| > 1 && IsSpace(s[0]) ==> !IsSpace(s[1])
    ensures Shape(s) == [TokOf(s[0])] + Shape(s[1..])
  {
    if |s| > 1 {
      assert s[1..][0] == s[1];
    }
  }

  /** Two strings whose only whitespace is single spaces are equal exactly
      when their layouts are. */
  lemma {:induction false} CollapsedLayoutUnique(a: string, b: string)
    requires Collapsed(a, Whitespace) && Collapsed(b, Whitespace)
    ensures Shape(a) == Shape(b) <==> a == b
    decreases |a|
  {
    if Shape(a) == Shape(b) && |a| > 0 {
      assert |b| > 0;
      assert |a| > 1 && IsSpace(a[0]) ==> !IsSpace(a[1]) by {
        assert |a| > 1 ==> !(InClass(a[0], Whitespace) && InClass(a[1], Whitespace));
      }
      assert |b| > 1 && IsSpace(b[0]) ==> !IsSpace(b[1]) by {
        assert |b| > 1 ==> !(InClass(b[0], Whitespace) && InClass(b[1], Whitespace));
      }
      HeadTok(a);
      HeadTok(b);
      assert TokOf(a[0]) == TokOf(b[0]);
      assert a[0] == b[0] by {
        if IsSpace(a[0]) {
          assert InClass(a[0], Whitespace) && InClass(b[0], Whitespace);
        }
      }
      assert Shape(a[1..]) == Shape(a)[1..];
      assert Shape(b[1..]) == Shape(b)[1..];
      CollapsedSlice(a, 1, |a|, Whitespace);
      CollapsedSlice(b, 1, |b|, Whitespace);
      CollapsedLayoutUnique(a[1..], b[1..]);
      assert a == [a[0]] + a[1..];
      assert b == [b[0]] + b[1..];
    }
  }
}
