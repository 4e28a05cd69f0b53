/** The Python string operations the scripts rely on, written out on
    `seq<char>`: `startswith`, `find`, `split`, `join`, `replace`, `strip`,
    `lower`, slicing with a possibly negative end, and the ordering `sorted`
    uses. */
module Text {

  predicate StartsWith(s: string, p: string) {
    |p| <= |s| && s[..|p|] == p
  }

  /** `p` occurs in `s` starting at index `i`. */
  predicate OccursAt(s: string, p: string, i: nat) {
    i + |p| <= |s| && s[i..i + |p|] == p
  }

  lemma OccursAtShift(s: string, p: string, k: nat, j: nat)
    requires k <= |s|
    ensures OccursAt(s[k..], p, j) <==> OccursAt(s, p, k + j)
  {
    if k + j + |p| <= |s| {
      assert s[k..][j..j + |p|] == s[k + j..k + j + |p|];
    }
  }

  function FindFrom(s: string, p: string, i: nat): (r: int)
    requires i <= |s|
    ensures r == -1 ==> forall j :: i <= j <= |s| ==> !OccursAt(s, p, j)
    ensures r != -1 ==> i <= r <= |s| && OccursAt(s, p, r)
    ensures r != -1 ==> forall j :: i <= j < r ==> !OccursAt(s, p, j)
    decreases |s| - i
  {
    if OccursAt(s, p, i) then i
    else if i == |s| then -1
    else FindFrom(s, p, i + 1)
  }

  /** Python's `s.find(p)`: the first index where `p` occurs, or -1. */
  function Find(s: string, p: string): (r: int)
    ensures r == -1 ==> forall j :: 0 <= j <= |s| ==> !OccursAt(s, p, j)
    ensures r != -1 ==> 0 <= r <= |s| && OccursAt(s, p, r)
    ensures r != -1 ==> forall j :: 0 <= j < r ==> !OccursAt(s, p, j)
  {
    FindFrom(s, p, 0)
  }

  /** Python's `s[:e]`: a negative `e` counts from the end. */
  function SliceTo(s: string, e: int): string {
    if e >= 0 then (if e <= |s| then s[..e] else s)
    else if |s| + e >= 0 then s[..|s| + e]
    else ""
  }

  /** Python's `sep.join(xs)`. */
  function Join(xs: seq<string>, sep: string): string
    decreases |xs|
  {
    if |xs| == 0 then ""
    else if |xs| == 1 then xs[0]
    else xs[0] + sep + Join(xs[1..], sep)
  }

  /** Python's `s.split(c)` for a one-character separator: at least one piece,
      no piece holds the separator, and joining the pieces gives `s` back. */
  function Split(s: string, c: char): (r: seq<string>)
    ensures |r| >= 1
    ensures forall i :: 0 <= i < |r| ==> c !in r[i]
    ensures Join(r, [c]) == s
    decreases |s|
  {
    if |s| == 0 then [""]
    else
      var rest := Split(s[1..], c);
      if s[0] == c then
        assert Join([""] + rest, [c]) == [c] + Join(rest, [c]) by {
          assert ([""] + rest)[1..] == rest;
        }
        [""] + rest
      else
        var r := [[s[0]] + rest[0]] + rest[1..];
        assert Join(r, [c]) == [s[0]] + Join(rest, [c]) by {
          if |rest| > 1 {
            assert r[1..] == rest[1..];
          }
        }
        r
  }

  lemma SplitNoSeparator(s: string, c: char)
    requires c !in s
    ensures Split(s, c) == [s]
    decreases |s|
  {
    if |s| > 0 {
      assert c !in s[1..];
      SplitNoSeparator(s[1..], c);
    }
  }

  /** `split` gives a single piece exactly when the separator does not occur. */
  lemma SplitSingle(s: string, c: char)
    ensures |Split(s, c)| == 1 <==> c !in s
  {
    if c !in s {
      SplitNoSeparator(s, c);
    }
    var r := Split(s, c);
    assert |r| == 1 ==> s == r[0];
  }

  lemma {:induction false} SplitAfterPiece(a: string, b: string, c: char)
    requires c !in a
    ensures Split(a + [c] + b, c) == [a] + Split(b, c)
    decreases |a|
  {
    if |a| == 0 {
      assert a + [c] + b == [c] + b;
      assert ([c] + b)[1..] == b;
    } else {
      assert (a + [c] + b)[1..] == a[1..] + [c] + b;
      assert c !in a[1..];
      SplitAfterPiece(a[1..], b, c);
      assert [a[0]] + a[1..] == a;
    }
  }

  /** Splitting undoes joining, provided there is at least one piece and no
      piece holds the separator. */
  lemma {:induction false} SplitJoin(xs: seq<string>, c: char)
    requires |xs| >= 1
    requires forall i :: 0 <= i < |xs| ==> c !in xs[i]
    ensures Split(Join(xs, [c]), c) == xs
    decreases |xs|
  {
    if |xs| == 1 {
      SplitNoSeparator(xs[0], c);
    } else {
      SplitJoin(xs[1..], c);
      SplitAfterPiece(xs[0], Join(xs[1..], [c]), c);
      assert [xs[0]] + xs[1..] == xs;
    }
  }

  /** Every character of a piece occurs in the joined text. */
  lemma {:induction false} JoinWithin(xs: seq<string>, sep: string, i: nat, x: char)
    requires i < |xs| && x in xs[i]
    ensures x in Join(xs, sep)
    decreases |xs|
  {
    if |xs| > 1 {
      if i > 0 {
        JoinWithin(xs[1..], sep, i - 1, x);
      }
      assert Join(xs, sep) == xs[0] + sep + Join(xs[1..], sep);
    }
  }

  /** Every character of a piece of `split` occurs in the text split. */
  lemma SplitWithin(s: string, c: char, i: nat, x: char)
    requires i < |Split(s, c)| && x in Split(s, c)[i]
    ensures x in s
  {
    JoinWithin(Split(s, c), [c], i, x);
  }

  /** Where the last piece of `s[k..].split(sep)` starts: each search for
      `sep` resumes right after the occurrence found before. */
  function LastPieceStart(s: string, sep: string, k: nat): (r: nat)
    requires |sep| > 0 && k <= |s|
    ensures k <= r <= |s|
    ensures forall j :: r <= j <= |s| ==> !OccursAt(s, sep, j)
    ensures FindFrom(s, sep, k) == -1 ==> r == k
    ensures FindFrom(s, sep, k) != -1 ==> k + |sep| <= r && OccursAt(s, sep, r - |sep|)
    decreases |s| - k
  {
    var i := FindFrom(s, sep, k);
    if i < 0 then k else LastPieceStart(s, sep, i + |sep|)
  }

  /** Python's `s.split(sep)[-1]`: the text after the last occurrence of `sep`
      (all of `s` when `sep` does not occur). The result is a suffix of `s`
      without an occurrence of `sep`, and when `sep` occurs it stands right
      before the result. */
  function SplitLast(s: string, sep: string): (r: string)
    requires |sep| > 0
    ensures |r| <= |s| && r == s[|s| - |r|..]
    ensures Find(s, sep) == -1 ==> r == s
    ensures Find(s, sep) != -1 ==> |r| + |sep| <= |s| && OccursAt(s, sep, |s| - |r| - |sep|)
  {
    s[LastPieceStart(s, sep, 0)..]
  }

  /** The last piece holds no occurrence of `sep`. */
  lemma SplitLastNoOccurrence(s: string, sep: string)
    requires |sep| > 0
    ensures Find(SplitLast(s, sep), sep) == -1
  {
    var k := LastPieceStart(s, sep, 0);
    forall j | 0 <= j <= |s| - k ensures !OccursAt(s[k..], sep, j) {
      OccursAtShift(s, sep, k, j);
    }
  }

  /** Python's `s.replace(pat, repl)`: every non-overlapping occurrence, scanned
      left to right, is replaced. */
  function ReplaceAll(s: string, pat: string, repl: string): (r: string)
    requires |pat| > 0
    ensures StartsWith(s, pat) ==> StartsWith(r, repl)
    ensures (forall j :: 0 <= j <= |s| ==> !OccursAt(s, pat, j)) ==> r == s
    decreases |s|
  {
    if |s| < |pat| then s
    else if s[..|pat|] == pat then
      assert OccursAt(s, pat, 0);
      repl + ReplaceAll(s[|pat|..], pat, repl)
    else
      assert forall j :: 0 <= j <= |s| - 1 && OccursAt(s[1..], pat, j) ==> OccursAt(s, pat, j + 1) by {
        forall j | 0 <= j <= |s| - 1 && OccursAt(s[1..], pat, j) ensures OccursAt(s, pat, j + 1) {
          OccursAtShift(s, pat, 1, j);
        }
      }
      [s[0]] + ReplaceAll(s[1..], pat, repl)
  }

  /** The characters Python's `strip()` removes (the ASCII whitespace). */
  predicate IsSpace(c: char) {
    c == ' ' || c == '\t' || c == '\n' || c == '\r' || c == 11 as char || c == 12 as char
  }

  function TrimLeft(s: string): (r: string)
    ensures |r| <= |s| && r == s[|s| - |r|..]
    ensures forall i :: 0 <= i < |s| - |r| ==> IsSpace(s[i])
    ensures |r| > 0 ==> !IsSpace(r[0])
    decreases |s|
  {
    if |s| > 0 && IsSpace(s[0]) then TrimLeft(s[1..]) else s
  }

  function TrimRight(s: string): (r: string)
    ensures |r| <= |s| && r == s[..|r|]
    ensures forall i :: |r| <= i < |s| ==> IsSpace(s[i])
    ensures |r| > 0 ==> !IsSpace(r[|r| - 1])
    decreases |s|
  {
    if |s| > 0 && IsSpace(s[|s| - 1]) then TrimRight(s[..|s| - 1]) else s
  }

  /** `r` is the slice `s[a..b]`, and only whitespace lies outside it. */
  predicate SpaceAround(s: string, a: int, b: int, r: string) {
    && 0 <= a <= b <= |s| && r == s[a..b]
    && (forall i :: 0 <= i < a ==> IsSpace(s[i]))
    && (forall i :: b <= i < |s| ==> IsSpace(s[i]))
  }

  /** Python's `s.strip()`: the result is a slice of `s` with only whitespace
      outside it and none at either of its ends, so a string that has none
      there is returned unchanged. */
  function Strip(s: string): (r: string)
    ensures exists a, b :: SpaceAround(s, a, b, r)
    ensures |r| > 0 ==> !IsSpace(r[0]) && !IsSpace(r[|r| - 1])
    ensures |s| == 0 || (!IsSpace(s[0]) && !IsSpace(s[|s| - 1])) ==> r == s
  {
    SliceAround(s, TrimLeft(s), TrimRight(TrimLeft(s)));
    TrimRight(TrimLeft(s))
  }

  /** A prefix `r` of a suffix `l` of `s`, with only whitespace cut off on
      either side, is a slice of `s` with only whitespace around it. */
  lemma SliceAround(s: string, l: string, r: string)
    requires |l| <= |s| && l == s[|s| - |l|..]
    requires forall i :: 0 <= i < |s| - |l| ==> IsSpace(s[i])
    requires |r| <= |l| && r == l[..|r|]
    requires forall i :: |r| <= i < |l| ==> IsSpace(l[i])
    ensures exists a, b :: SpaceAround(s, a, b, r)
  {
    var a := |s| - |l|;
    var b := a + |r|;
    assert r == s[a..b];
    forall i | b <= i < |s|
      ensures IsSpace(s[i])
    {
      assert s[i] == l[i - a];
    }
    assert SpaceAround(s, a, b, r);
  }

  /** `strip` only removes characters: whatever it keeps was in its input. */
  lemma StripWithin(s: string, x: char)
    requires x in Strip(s)
    ensures x in s
  {
    var l := TrimLeft(s);
    var r := TrimRight(l);
    var i :| 0 <= i < |r| && r[i] == x;
    assert r[i] == l[i];
    assert l[i] == s[|s| - |l| + i];
  }

  function LowerChar(c: char): char {
    if 'A' <= c <= 'Z' then (c as int + 32) as char else c
  }

  /** Python's `s.lower()` on ASCII letters. */
  function Lower(s: string): (r: string)
    ensures |r| == |s|
    ensures forall i :: 0 <= i < |s| ==> r[i] == LowerChar(s[i])
  {
    seq(|s|, i requires 0 <= i < |s| => LowerChar(s[i]))
  }

  /** Python's `s.replace(a, b)` for one-character `a` and `b`. */
  function ReplaceChar(s: string, a: char, b: char): (r: string)
    ensures |r| == |s|
    ensures a != b ==> a !in r
    ensures forall i :: 0 <= i < |s| ==> r[i] == if s[i] == a then b else s[i]
  {
    seq(|s|, i requires 0 <= i < |s| => if s[i] == a then b else s[i])
  }

  /** Python's `s.replace(c, "")`: every `c` goes, every other character
      stays as often as it was there (and in its order, by
      `RemoveCharAppend`). */
  function RemoveChar(s: string, c: char): (r: string)
    ensures c !in r
    ensures forall x :: x in r <==> x in s && x != c
    ensures multiset(r) == multiset(s)[c := 0]
    decreases |s|
  {
    if |s| == 0 then ""
    else
      assert s == [s[0]] + s[1..];
      (if s[0] == c then "" else [s[0]]) + RemoveChar(s[1..], c)
  }

  /** Removing `c` from a concatenation removes it from each part: the kept
      characters keep their order. */
  lemma {:induction false} RemoveCharAppend(a: string, b: string, c: char)
    ensures RemoveChar(a + b, c) == RemoveChar(a, c) + RemoveChar(b, c)
    decreases |a|
  {
    if |a| > 0 {
      assert (a + b)[1..] == a[1..] + b;
      RemoveCharAppend(a[1..], b, c);
    } else {
      assert a + b == b;
    }
  }

  predicate IsDigit(c: char) {
    '0' <= c <= '9'
  }

  /** The order Python uses to compare strings: by code point, a proper prefix
      first. */
  predicate Less(a: string, b: string)
    decreases |a|
  {
    |b| > 0 && (|a| == 0 || a[0] < b[0] || (a[0] == b[0] && Less(a[1..], b[1..])))
  }

  lemma {:induction false} LessIrreflexive(a: string)
    ensures !Less(a, a)
    decreases |a|
  {
    if |a| > 0 {
      LessIrreflexive(a[1..]);
    }
  }

  lemma {:induction false} LessTransitive(a: string, b: string, c: string)
    requires Less(a, b) && Less(b, c)
    ensures Less(a, c)
    decreases |a|
  {
    if |a| > 0 && a[0] == b[0] && b[0] == c[0] {
      LessTransitive(a[1..], b[1..], c[1..]);
    }
  }

  lemma {:induction false} LessTotal(a: string, b: string)
    ensures a == b || Less(a, b) || Less(b, a)
    decreases |a|
  {
    if |a| > 0 && |b| > 0 && a[0] == b[0] {
      LessTotal(a[1..], b[1..]);
      if a[1..] == b[1..] {
        assert a == [a[0]] + a[1..] && b == [b[0]] + b[1..];
      }
    }
  }
}
