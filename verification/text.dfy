/**
  The handful of Python `str` operations the pipeline relies on, written out
  over `seq<char>`: `isspace`, `strip`, slicing with clamped bounds,
  `re.sub` of a character-class run, `split('\n')` / `'\n'.join`, `lower`,
  and decimal rendering of integers.
*/
module PyText {

  /** Python's `str.isspace()`; a `\s` in a `str` pattern matches exactly these characters. */
  predicate IsSpace(c: char) {
    || c == ' '
    || ('\t' <= c <= '\r')
    || ('\U{1c}' <= c <= '\U{1f}')
    || c == '\U{85}' || c == '\U{a0}' || c == '\U{1680}'
    || ('\U{2000}' <= c <= '\U{200a}')
    || c == '\U{2028}' || c == '\U{2029}' || c == '\U{202f}' || c == '\U{205f}' || c == '\U{3000}'
  }

  /** An ASCII decimal digit (the model reads `\d` as `[0-9]`). */
  predicate IsDigit(c: char) {
    '0' <= c <= '9'
  }

  /** The character classes whose runs the source rewrites with `re.sub`. */
  datatype CharClass =
    | Blanks      // [ \t]
    | Whitespace  // \s
    | Newlines    // \n

  predicate InClass(c: char, k: CharClass) {
    match k
    case Blanks => c == ' ' || c == '\t'
    case Whitespace => IsSpace(c)
    case Newlines => c == '\n'
  }

  // ---------------------------------------------------------------------------
  // strip / lstrip / rstrip

  /** `s.lstrip()`: drops exactly the leading whitespace. */
  function LStrip(s: string): (r: string)
    ensures |r| <= |s| && r == s[|s| - |r|..]
    ensures forall k :: 0 <= k < |s| - |r| ==> IsSpace(s[k])
    ensures |r| > 0 ==> !IsSpace(r[0])
  {
    if |s| > 0 && IsSpace(s[0]) then LStrip(s[1..]) else s
  }

  /** `s.rstrip()`: drops exactly the trailing whitespace. */
  function RStrip(s: string): (r: string)
    ensures |r| <= |s| && r == s[..|r|]
    ensures forall k :: |r| <= k < |s| ==> IsSpace(s[k])
    ensures |r| > 0 ==> !IsSpace(r[|r| - 1])
  {
    if |s| > 0 && IsSpace(s[|s| - 1]) then RStrip(s[..|s| - 1]) else s
  }

  /** Where `Strip(s)` begins inside `s`. */
  function StripOffset(s: string): nat
  {
    |RStrip(s)| - |LStrip(RStrip(s))|
  }

  /** `s.strip()`: the slice of `s` left after dropping whitespace at both ends. */
  function Strip(s: string): (r: string)
    ensures StripOffset(s) + |r| <= |s|
    ensures r == s[StripOffset(s)..StripOffset(s) + |r|]
    ensures forall k :: 0 <= k < StripOffset(s) ==> IsSpace(s[k])
    ensures forall k :: StripOffset(s) + |r| <= k < |s| ==> IsSpace(s[k])
    ensures |r| > 0 ==> !IsSpace(r[0]) && !IsSpace(r[|r| - 1])
    ensures Trimmed(s) ==> r == s
  {
    var t := RStrip(s);
    var r := LStrip(t);
    assert StripOffset(s) == |t| - |r|;
    assert r == t[|t| - |r|..];
    assert r == s[|t| - |r|..|t|];
    assert Trimmed(s) && |s| > 0 ==> t == s && r == t;
    r
  }

  /** No whitespace at either end: what `strip()` leaves unchanged. */
  predicate Trimmed(s: string) {
    |s| == 0 || (!IsSpace(s[0]) && !IsSpace(s[|s| - 1]))
  }

  lemma {:induction false} LStripKeeps(s: string)
    ensures Without(LStrip(s), Whitespace) == Without(s, Whitespace)
  {
    if |s| > 0 && IsSpace(s[0]) {
      LStripKeeps(s[1..]);
    }
  }

  lemma {:induction false} RStripKeeps(s: string)
    ensures Without(RStrip(s), Whitespace) == Without(s, Whitespace)
  {
    if |s| > 0 && IsSpace(s[|s| - 1]) {
      var init := s[..|s| - 1];
      RStripKeeps(init);
      assert s == init + [s[|s| - 1]];
      WithoutConcat(init, [s[|s| - 1]], Whitespace);
    }
  }

  /** Stripping only removes whitespace. */
  lemma StripKeeps(s: string)
    ensures Without(Strip(s), Whitespace) == Without(s, Whitespace)
  {
    RStripKeeps(s);
    LStripKeeps(RStrip(s));
  }

  // ---------------------------------------------------------------------------
  // Python slicing

  /** `s[a:b]` for non-negative bounds: both are clamped to `len(s)`, and the
      slice is empty when the clamped end lies before the clamped start. */
  function PySlice(s: string, a: nat, b: nat): (r: string)
    ensures |r| <= |s|
    ensures a <= b <= |s| ==> r == s[a..b]
    ensures b < a ==> r == []
    ensures a <= |s| ==> a + |r| <= |s| && r == s[a..a + |r|]
  {
    var lo := if a <= |s| then a else |s|;
    var hi := if b <= |s| then b else |s|;
    if lo <= hi then s[lo..hi] else []
  }

  // ---------------------------------------------------------------------------
  // run collapsing: re.sub(r'<class>+', ' ', s) and re.sub(r'\n{3,}', '\n\n', s)

  /** Length of the run of `k`-characters at the front of `s`. */
  function RunLength(s: string, k: CharClass): (n: nat)
    ensures n <= |s|
    ensures forall j :: 0 <= j < n ==> InClass(s[j], k)
    ensures n < |s| ==> !InClass(s[n], k)
  {
    if |s| > 0 && InClass(s[0], k) then 1 + RunLength(s[1..], k) else 0
  }

  /** `s` with every `k`-character removed: the part a run rewrite must keep. */
  function Without(s: string, k: CharClass): (r: string)
    ensures |r| <= |s|
    ensures forall j :: 0 <= j < |r| ==> !InClass(r[j], k)
  {
    if |s| == 0 then [] else (if InClass(s[0], k) then [] else [s[0]]) + Without(s[1..], k)
  }

  lemma {:induction false} WithoutConcat(a: string, b: string, k: CharClass)
    ensures Without(a + b, k) == Without(a, k) + Without(b, k)
    decreases |a|
  {
    if |a| == 0 {
      assert a + b == b;
    } else {
      assert (a + b)[1..] == a[1..] + b;
      WithoutConcat(a[1..], b, k);
    }
  }

  lemma {:induction false} WithoutRun(s: string, n: nat, k: CharClass)
    requires n <= |s|
    requires forall j :: 0 <= j < n ==> InClass(s[j], k)
    ensures Without(s, k) == Without(s[n..], k)
    decreases n
  {
    if n > 0 {
      assert s[1..][n - 1..] == s[n..];
      WithoutRun(s[1..], n - 1, k);
    }
  }

  /** Every character of the class is a space and no two of them are adjacent. */
  predicate Collapsed(s: string, k: CharClass) {
    && (forall j :: 0 <= j < |s| && InClass(s[j], k) ==> s[j] == ' ')
    && (forall j :: 0 <= j < |s| - 1 ==> !(InClass(s[j], k) && InClass(s[j + 1], k)))
  }

  /** A slice of a collapsed string is collapsed. */
  lemma CollapsedSlice(s: string, a: nat, b: nat, k: CharClass)
    requires a <= b <= |s|
    requires Collapsed(s, k)
    ensures Collapsed(s[a..b], k)
  {
    var t := s[a..b];
    assert forall j :: 0 <= j < |t| ==> t[j] == s[a + j];
  }

  /** `re.sub(r'[ \t]+', ' ', s)` (k = Blanks) or `re.sub(r'\s+', ' ', s)`
      (k = Whitespace): each maximal run of class characters becomes one space. */
  function CollapseRuns(s: string, k: CharClass): (r: string)
    requires k != Newlines
    ensures |r| <= |s|
    ensures |r| == 0 <==> |s| == 0
    ensures |r| > 0 ==> (InClass(r[0], k) <==> InClass(s[0], k))
    ensures Collapsed(r, k)
    ensures forall j :: 0 <= j < |r| ==> r[j] == ' ' || r[j] in s
    decreases |s|
  {
    if |s| == 0 then []
    else if InClass(s[0], k) then [' '] + CollapseRuns(s[RunLength(s, k)..], k)
    else [s[0]] + CollapseRuns(s[1..], k)
  }

  /** Class `k` is contained in class `k2`. */
  predicate Within(k: CharClass, k2: CharClass) {
    k == k2 || k2 == Whitespace
  }

  /** Collapsing keeps every character outside the class (or any wider class), in order. */
  lemma {:induction false} CollapseRunsKeeps(s: string, k: CharClass, k2: CharClass)
    requires k != Newlines && Within(k, k2)
    ensures Without(CollapseRuns(s, k), k2) == Without(s, k2)
    decreases |s|
  {
    if |s| > 0 {
      if InClass(s[0], k) {
        var n := RunLength(s, k);
        WithoutConcat([' '], CollapseRuns(s[n..], k), k2);
        CollapseRunsKeeps(s[n..], k, k2);
        WithoutRun(s, n, k2);
      } else {
        WithoutConcat([s[0]], CollapseRuns(s[1..], k), k2);
        CollapseRunsKeeps(s[1..], k, k2);
      }
    }
  }

  /** A string is left unchanged by the collapse exactly when it is already collapsed. */
  lemma {:induction false} CollapseRunsFixedPoint(s: string, k: CharClass)
    requires k != Newlines
    ensures CollapseRuns(s, k) == s <==> Collapsed(s, k)
    decreases |s|
  {
    if |s| > 0 && Collapsed(s, k) {
      assert Collapsed(s[1..], k);
      CollapseRunsFixedPoint(s[1..], k);
      if InClass(s[0], k) {
        assert s[0] == ' ';
        assert RunLength(s, k) == 1 by {
          if |s| > 1 {
            assert !InClass(s[1], k);
          }
        }
      }
      assert s == [s[0]] + s[1..];
    }
  }

  /** No three newlines in a row. */
  predicate NoTripleNewline(s: string) {
    forall j :: 0 <= j < |s| - 2 ==> !(s[j] == '\n' && s[j + 1] == '\n' && s[j + 2] == '\n')
  }

  /** `re.sub(r'\n{3,}', '\n\n', s)`: every maximal run of three or more newlines
      becomes exactly two; shorter runs are left alone. */
  function CollapseNewlines(s: string): (r: string)
    ensures |r| <= |s|
    ensures |r| > 0 ==> (r[0] == '\n' <==> s[0] == '\n')
    ensures |r| == 0 <==> |s| == 0
    ensures NoTripleNewline(r)
    decreases |s|
  {
    if |s| == 0 then []
    else if s[0] == '\n' then
      var n := RunLength(s, Newlines);
      (if n >= 3 then "\n\n" else s[..n]) + CollapseNewlines(s[n..])
    else [s[0]] + CollapseNewlines(s[1..])
  }

  /** A leading run of newlines, and the block that replaces it, hold nothing
      outside a class that contains the newline. */
  lemma NewlineBlockVanishes(s: string, k2: CharClass)
    requires Within(Newlines, k2) && |s| > 0 && s[0] == '\n'
    ensures var n := RunLength(s, Newlines);
      && Without(if n >= 3 then "\n\n" else s[..n], k2) == []
      && Without(s, k2) == Without(s[n..], k2)
  {
    var n := RunLength(s, Newlines);
    var block := if n >= 3 then "\n\n" else s[..n];
    assert forall j :: 0 <= j < |block| ==> InClass(block[j], k2);
    WithoutRun(block, |block|, k2);
    assert block[|block|..] == [];
    assert forall j :: 0 <= j < n ==> InClass(s[j], k2);
    WithoutRun(s, n, k2);
  }

  /** The newline collapse keeps every character that is not a newline (or, more
      coarsely, not whitespace), in order. */
  lemma {:induction false} CollapseNewlinesKeeps(s: string, k2: CharClass)
    requires Within(Newlines, k2)
    ensures Without(CollapseNewlines(s), k2) == Without(s, k2)
    decreases |s|
  {
    if |s| > 0 {
      if s[0] == '\n' {
        var n := RunLength(s, Newlines);
        var block := if n >= 3 then "\n\n" else s[..n];
        calc {
          Without(CollapseNewlines(s), k2);
          Without(block + CollapseNewlines(s[n..]), k2);
          { WithoutConcat(block, CollapseNewlines(s[n..]), k2); }
          Without(block, k2) + Without(CollapseNewlines(s[n..]), k2);
          { NewlineBlockVanishes(s, k2); }
          Without(CollapseNewlines(s[n..]), k2);
          { CollapseNewlinesKeeps(s[n..], k2); }
          Without(s[n..], k2);
          { NewlineBlockVanishes(s, k2); }
          Without(s, k2);
        }
      } else {
        WithoutConcat([s[0]], CollapseNewlines(s[1..]), k2);
        CollapseNewlinesKeeps(s[1..], k2);
      }
    }
  }

  /** The newline collapse changes a string exactly when it holds three newlines in a row. */
  lemma {:induction false} CollapseNewlinesFixedPoint(s: string)
    ensures CollapseNewlines(s) == s <==> NoTripleNewline(s)
    decreases |s|
  {
    if |s| > 0 && NoTripleNewline(s) {
      if s[0] == '\n' {
        var n := RunLength(s, Newlines);
        if |s| > 2 {
          assert !(s[0] == '\n' && s[1] == '\n' && s[2] == '\n');
        }
        assert n < 3;
        assert NoTripleNewline(s[n..]);
        CollapseNewlinesFixedPoint(s[n..]);
        assert s == s[..n] + s[n..];
      } else {
        assert NoTripleNewline(s[1..]);
        CollapseNewlinesFixedPoint(s[1..]);
        assert s == [s[0]] + s[1..];
      }
    }
  }

  // ---------------------------------------------------------------------------
  // split('\n') and '\n'.join

  /** Index of the first `c` in `s`, or `|s|` when there is none. */
  function IndexOf(s: string, c: char): (i: nat)
    ensures i <= |s|
    ensures i < |s| ==> s[i] == c
    ensures forall j :: 0 <= j < i ==> s[j] != c
  {
    if |s| == 0 then 0 else if s[0] == c then 0 else 1 + IndexOf(s[1..], c)
  }

  /** The position just after the last `c` in `s`, or 0 when there is none
      (where `s.rpartition(c)[2]` begins). */
  function AfterLast(s: string, c: char): (k: nat)
    ensures k <= |s|
    ensures k > 0 ==> s[k - 1] == c
    ensures forall j :: k <= j < |s| ==> s[j] != c
  {
    if |s| == 0 then 0
    else if s[|s| - 1] == c then |s|
    else AfterLast(s[..|s| - 1], c)
  }

  /** The last `c` of `a + [c] + b` is the one between them when `b` holds none. */
  lemma {:induction false} AfterLastSplit(a: string, c: char, b: string)
    requires c !in b
    ensures AfterLast(a + [c] + b, c) == |a| + 1
    ensures (a + [c] + b)[..|a|] == a && (a + [c] + b)[|a| + 1..] == b
    decreases |b|
  {
    var s := a + [c] + b;
    assert s[..|a|] == a;
    assert s[|a| + 1..] == b;
    if |b| == 0 {
      assert s == a + [c];
    } else {
      assert s[|s| - 1] == b[|b| - 1];
      assert s[..|s| - 1] == a + [c] + b[..|b| - 1];
      assert c !in b[..|b| - 1] by {
        assert forall j :: 0 <= j < |b| - 1 ==> b[..|b| - 1][j] == b[j];
      }
      AfterLastSplit(a, c, b[..|b| - 1]);
    }
  }

  /** `'\n'.join(lines)`. */
  function JoinLines(lines: seq<string>): string
  {
    if |lines| == 0 then ""
    else if |lines| == 1 then lines[0]
    else lines[0] + "\n" + JoinLines(lines[1..])
  }

  /** `s.split('\n')`: the pieces between newlines; joining them gives `s` back. */
  function SplitLines(s: string): (lines: seq<string>)
    ensures |lines| >= 1
    ensures forall i :: 0 <= i < |lines| ==> '\n' !in lines[i]
    ensures JoinLines(lines) == s
    decreases |s|
  {
    var i := IndexOf(s, '\n');
    if i == |s| then
      assert '\n' !in s;
      [s]
    else
      var rest := SplitLines(s[i + 1..]);
      assert s == s[..i] + "\n" + s[i + 1..];
      assert '\n' !in s[..i];
      [s[..i]] + rest
  }

  /** Joining with newlines adds only whitespace: two line lists whose lines agree
      outside whitespace join to strings that agree outside whitespace. */
  lemma {:induction false} JoinLinesKeeps(a: seq<string>, b: seq<string>)
    requires |a| == |b|
    requires forall i :: 0 <= i < |a| ==> Without(a[i], Whitespace) == Without(b[i], Whitespace)
    ensures Without(JoinLines(a), Whitespace) == Without(JoinLines(b), Whitespace)
    decreases |a|
  {
    if |a| > 1 {
      JoinLinesKeeps(a[1..], b[1..]);
      WithoutConcat(a[0] + "\n", JoinLines(a[1..]), Whitespace);
      WithoutConcat(a[0], "\n", Whitespace);
      WithoutConcat(b[0] + "\n", JoinLines(b[1..]), Whitespace);
      WithoutConcat(b[0], "\n", Whitespace);
    }
  }

  /** Splitting a join of newline-free lines gives the lines back. */
  lemma {:induction false} SplitJoin(lines: seq<string>)
    requires |lines| >= 1
    requires forall i :: 0 <= i < |lines| ==> '\n' !in lines[i]
    ensures SplitLines(JoinLines(lines)) == lines
    decreases |lines|
  {
    var s := JoinLines(lines);
    var i := IndexOf(s, '\n');
    if |lines| == 1 {
      assert '\n' !in s;
      assert forall j :: 0 <= j < |s| ==> s[j] in s;
    } else {
      var first := lines[0];
      assert s == first + "\n" + JoinLines(lines[1..]);
      assert s[|first|] == '\n';
      assert forall j :: 0 <= j < |first| ==> s[j] == first[j] && first[j] in first;
      assert i == |first|;
      assert s[..i] == first;
      assert s[i + 1..] == JoinLines(lines[1..]);
      SplitJoin(lines[1..]);
      assert lines == [first] + lines[1..];
    }
  }

  /** Joining two non-empty line lists is joining their joins with a newline. */
  lemma {:induction false} JoinLinesAppend(a: seq<string>, b: seq<string>)
    requires |a| >= 1 && |b| >= 1
    ensures JoinLines(a + b) == JoinLines(a) + "\n" + JoinLines(b)
    decreases |a|
  {
    if |a| == 1 {
      assert (a + b)[1..] == b;
    } else {
      assert (a + b)[1..] == a[1..] + b;
      JoinLinesAppend(a[1..], b);
    }
  }

  /** The join of `head + foot` ends with a newline and the join of `foot`. */
  lemma JoinLinesTail(head: seq<string>, foot: seq<string>)
    requires |head| >= 1 && |foot| >= 1
    ensures var t := "\n" + JoinLines(foot);
      |t| <= |JoinLines(head + foot)| && JoinLines(head + foot)[|JoinLines(head + foot)| - |t|..] == t
  {
    JoinLinesAppend(head, foot);
    var h, t := JoinLines(head), "\n" + JoinLines(foot);
    assert h + "\n" + JoinLines(foot) == h + t;
    assert (h + t)[|h + t| - |t|..] == t;
  }

  // ---------------------------------------------------------------------------
  // lower()

  /** `c.lower()` for ASCII letters and the Latin-1 capitals (À–Þ except ×). */
  function LowerChar(c: char): (r: char)
  {
    if 'A' <= c <= 'Z' || ('\U{c0}' <= c <= '\U{de}' && c != '\U{d7}') then (c as int + 32) as char else c
  }

  /** `s.lower()`, character by character. */
  function Lower(s: string): (r: string)
    ensures |r| == |s|
    ensures forall i :: 0 <= i < |s| ==> r[i] == LowerChar(s[i])
  {
    seq(|s|, i requires 0 <= i < |s| => LowerChar(s[i]))
  }

  /** Lower-casing twice is lower-casing once. */
  lemma LowerIdempotent(s: string)
    ensures Lower(Lower(s)) == Lower(s)
  {
    assert forall i :: 0 <= i < |s| ==> LowerChar(LowerChar(s[i])) == LowerChar(s[i]);
  }

  // ---------------------------------------------------------------------------
  // repetition and decimal rendering

  /** `c * n` in Python. */
  function Repeat(c: char, n: nat): (r: string)
    ensures |r| == n
    ensures forall i :: 0 <= i < n ==> r[i] == c
  {
    seq(n, _ => c)
  }

  function DigitChar(d: nat): (c: char)
    requires d < 10
    ensures IsDigit(c)
  {
    ('0' as int + d) as char
  }

  function DigitValue(c: char): (d: nat)
    requires IsDigit(c)
    ensures d < 10
  {
    c as int - '0' as int
  }

  /** `str(n)` for a natural number: its decimal digits, no leading zero. */
  function NatStr(n: nat): (r: string)
    ensures |r| >= 1
    ensures forall i :: 0 <= i < |r| ==> IsDigit(r[i])
    ensures |r| > 1 ==> r[0] != '0'
  {
    if n < 10 then [DigitChar(n)] else NatStr(n / 10) + [DigitChar(n % 10)]
  }

  /** The value of a string of decimal digits. */
  function ParseNat(s: string): nat
    requires forall i :: 0 <= i < |s| ==> IsDigit(s[i])
  {
    if |s| == 0 then 0 else 10 * ParseNat(s[..|s| - 1]) + DigitValue(s[|s| - 1])
  }

  /** Reading back a rendered number gives the number. */
  lemma {:induction false} ParseNatStr(n: nat)
    ensures ParseNat(NatStr(n)) == n
  {
    if n >= 10 {
      var s := NatStr(n);
      assert s[..|s| - 1] == NatStr(n / 10);
      ParseNatStr(n / 10);
    }
  }

  /** `str(i)` for any integer. */
  function IntStr(i: int): (r: string)
    ensures |r| >= 1
    ensures i >= 0 ==> r == NatStr(i)
    ensures i < 0 ==> r == "-" + NatStr(-i)
  {
    if i < 0 then "-" + NatStr(-i) else NatStr(i)
  }

  /** Inverse of `IntStr`. */
  function ParseInt(s: string): int
  {
    if |s| > 0 && s[0] == '-' && forall i :: 1 <= i < |s| ==> IsDigit(s[i]) then -(ParseNat(s[1..]) as int)
    else if forall i :: 0 <= i < |s| ==> IsDigit(s[i]) then ParseNat(s)
    else 0
  }

  lemma ParseIntStr(i: int)
    ensures ParseInt(IntStr(i)) == i
  {
    var s := IntStr(i);
    if i < 0 {
      var d := NatStr(-i);
      assert s[1..] == d;
      assert forall k :: 1 <= k < |s| ==> IsDigit(s[k]) by {
        assert forall k :: 1 <= k < |s| ==> s[k] == d[k - 1];
      }
      ParseNatStr(-i);
    } else {
      assert IsDigit(s[0]);
      ParseNatStr(i);
    }
  }

  /** `'%0Nd' % n`: the decimal digits left-padded with zeros to `width`. */
  function ZeroPad(n: nat, width: nat): (r: string)
    ensures |r| >= width
    ensures forall i :: 0 <= i < |r| ==> IsDigit(r[i])
  {
    var d := NatStr(n);
    if |d| >= width then d else Repeat('0', width - |d|) + d
  }

  function Pow10(w: nat): (r: nat)
    ensures r >= 1
  {
    if w == 0 then 1 else 10 * Pow10(w - 1)
  }

  /** A number below 10^w has at most w digits. */
  lemma {:induction false} NatStrWidth(n: nat, w: nat)
    requires 1 <= w && n < Pow10(w)
    ensures |NatStr(n)| <= w
    decreases n
  {
    if n >= 10 {
      NatStrWidth(n / 10, w - 1);
    }
  }

  /** Zeros in front do not change the value of a digit string. */
  lemma {:induction false} ParseNatLeadingZeros(k: nat, d: string)
    requires forall i :: 0 <= i < |d| ==> IsDigit(d[i])
    ensures ParseNat(Repeat('0', k) + d) == ParseNat(d)
    decreases |d|
  {
    var z := Repeat('0', k);
    if |d| == 0 {
      assert z + d == z;
      ZerosParse(k);
    } else {
      assert (z + d)[..|z + d| - 1] == z + d[..|d| - 1];
      ParseNatLeadingZeros(k, d[..|d| - 1]);
    }
  }

  lemma {:induction false} ZerosParse(k: nat)
    ensures ParseNat(Repeat('0', k)) == 0
  {
    if k > 0 {
      assert Repeat('0', k)[..k - 1] == Repeat('0', k - 1);
      ZerosParse(k - 1);
    }
  }

  /** A zero-padded number reads back to the number, and a number below 10^w
      padded to width w takes exactly w characters. */
  lemma ZeroPadReadBack(n: nat, w: nat)
    ensures ParseNat(ZeroPad(n, w)) == n
    ensures 1 <= w && n < Pow10(w) ==> |ZeroPad(n, w)| == w
  {
    var d := NatStr(n);
    ParseNatStr(n);
    if |d| < w {
      ParseNatLeadingZeros(w - |d|, d);
    }
    if 1 <= w && n < Pow10(w) {
      NatStrWidth(n, w);
    }
  }
}
