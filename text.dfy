/**
 * The Python string built-ins that the MRZ pipeline relies on, stated on `seq<char>`:
 * `str.isspace`, `strip`, `rstrip(c)`, `replace(a, b)` for single characters,
 * `ljust`, ASCII `upper`, filtering by a character class, and `splitlines`.
 */
module Text {

  /** `c.isspace()` in Python 3: the 29 code points it accepts. */
  predicate IsSpace(c: char) {
    || ('\t' <= c <= '\r')
    || ('\U{1C}' <= c <= ' ')
    || c == '\U{85}' || c == '\U{A0}' || c == '\U{1680}'
    || ('\U{2000}' <= c <= '\U{200A}')
    || c == '\U{2028}' || c == '\U{2029}' || c == '\U{202F}' || c == '\U{205F}' || c == '\U{3000}'
  }

  /** `s.lstrip()`: the suffix of `s` left after its leading whitespace. */
  function StripLeft(s: string): (r: string)
    ensures |r| <= |s| && r == s[|s| - |r|..]
    ensures forall k :: 0 <= k < |s| - |r| ==> IsSpace(s[k])
    ensures r != [] ==> !IsSpace(r[0])
  {
    if s != [] && IsSpace(s[0]) then StripLeft(s[1..]) else s
  }

  /** `s.rstrip()`: the prefix of `s` left before its trailing whitespace. */
  function StripRight(s: string): (r: string)
    ensures |r| <= |s| && r == s[..|r|]
    ensures forall k :: |r| <= k < |s| ==> IsSpace(s[k])
    ensures r != [] ==> !IsSpace(r[|r| - 1])
  {
    if s != [] && IsSpace(s[|s| - 1]) then StripRight(s[..|s| - 1]) else s
  }

  /** `s.strip()`: `s` without whitespace at either end. */
  function Strip(s: string): (r: string)
    ensures |r| <= |s|
    ensures r != [] ==> !IsSpace(r[0]) && !IsSpace(r[|r| - 1])
    ensures r == [] <==> forall k :: 0 <= k < |s| ==> IsSpace(s[k])
    ensures (s == [] || (!IsSpace(s[0]) && !IsSpace(s[|s| - 1]))) ==> r == s
  {
    var t := StripLeft(s);
    assert t != [] ==> t[0] == s[|s| - |t|];
    StripRight(t)
  }

  /** `strip()` removes whitespace at the two ends and nothing else: the rest is a slice of `s`. */
  lemma StripIsInfix(s: string)
    ensures var i := |s| - |StripLeft(s)|;
            && i + |Strip(s)| <= |s|
            && Strip(s) == s[i..i + |Strip(s)|]
            && (forall k :: 0 <= k < i ==> IsSpace(s[k]))
            && (forall k :: i + |Strip(s)| <= k < |s| ==> IsSpace(s[k]))
  {
    StripSlice(s);
    StripTail(s);
  }

  /** `rstrip` of `s[i..]` is the slice of `s` starting at `i`. */
  lemma StripSlice(s: string)
    ensures var i := |s| - |StripLeft(s)|;
            i + |Strip(s)| <= |s| && Strip(s) == s[i..i + |Strip(s)|]
  {
    var t := StripLeft(s);
    PrefixOfSuffix(s, |s| - |t|, |StripRight(t)|);
  }

  /** Everything after the stripped slice is whitespace. */
  lemma StripTail(s: string)
    ensures var i := |s| - |StripLeft(s)|;
            forall k :: i + |Strip(s)| <= k < |s| ==> IsSpace(s[k])
  {
    var t := StripLeft(s);
    TailOfSuffix(s, |s| - |t|, |StripRight(t)|, IsSpace);
  }

  /** A prefix of the suffix `s[i..]` is a slice of `s`. */
  lemma PrefixOfSuffix<T>(s: seq<T>, i: nat, n: nat)
    requires i + n <= |s|
    ensures s[i..][..n] == s[i..i + n]
  {
  }

  /** What holds of a tail of the suffix `s[i..]` holds of the same positions of `s`. */
  lemma TailOfSuffix<T>(s: seq<T>, i: nat, n: nat, p: T -> bool)
    requires i + n <= |s|
    requires forall k :: n <= k < |s| - i ==> p(s[i..][k])
    ensures forall k :: i + n <= k < |s| ==> p(s[k])
  {
    forall k | i + n <= k < |s|
      ensures p(s[k])
    {
      assert s[k] == s[i..][k - i];
    }
  }

  /** `s.rstrip(c)` for a single character `c`. */
  function TrimRight(s: string, c: char): (r: string)
    ensures |r| <= |s| && r == s[..|r|]
    ensures forall k :: |r| <= k < |s| ==> s[k] == c
    ensures r != [] ==> r[|r| - 1] != c
  {
    if s != [] && s[|s| - 1] == c then TrimRight(s[..|s| - 1], c) else s
  }

  /** `s.replace(a, b)` for single characters `a` and `b`: a pointwise rewrite. */
  function ReplaceChar(s: string, a: char, b: char): (r: string)
    ensures |r| == |s|
    ensures forall i :: 0 <= i < |s| ==> r[i] == (if s[i] == a then b else s[i])
    ensures a != b ==> a !in r
  {
    seq(|s|, i requires 0 <= i < |s| => if s[i] == a then b else s[i])
  }

  /** `n` copies of `c`. */
  function Repeat(c: char, n: nat): (r: string)
    ensures |r| == n && forall i :: 0 <= i < n ==> r[i] == c
  {
    seq(n, _ => c)
  }

  /** `s.ljust(width, c)`: `s` padded on the right with `c`, never shortened. */
  function LeftJustify(s: string, width: nat, c: char): (r: string)
    ensures |r| == if |s| >= width then |s| else width
    ensures r[..|s|] == s
    ensures forall i :: |s| <= i < |r| ==> r[i] == c
  {
    if |s| >= width then s else s + Repeat(c, width - |s|)
  }

  /** ASCII `upper()` of one character; every other character is left alone. */
  function UpperChar(c: char): char {
    if 'a' <= c <= 'z' then (c as int - 'a' as int + 'A' as int) as char else c
  }

  /** ASCII `s.upper()`: each lower-case letter becomes its capital, 32 code points below it. */
  function Upper(s: string): (r: string)
    ensures |r| == |s|
    ensures forall i :: 0 <= i < |s| ==>
              if 'a' <= s[i] <= 'z' then 'A' <= r[i] <= 'Z' && r[i] as int + 32 == s[i] as int
              else r[i] == s[i]
  {
    seq(|s|, i requires 0 <= i < |s| => UpperChar(s[i]))
  }

  /** The characters of `s` that satisfy `p`, in their original order. */
  function Keep(s: string, p: char -> bool): (r: string)
    ensures |r| <= |s|
    ensures forall i :: 0 <= i < |r| ==> p(r[i])
    ensures (forall i :: 0 <= i < |s| ==> p(s[i])) ==> r == s
    decreases |s|
  {
    if s == [] then []
    else (if p(s[0]) then [s[0]] else []) + Keep(s[1..], p)
  }

  /**
   * `Keep` is a filter: it takes nothing that was not in `s`, and every occurrence
   * of a character passing the test survives.
   */
  lemma {:induction false} KeepIsFilter(s: string, p: char -> bool)
    ensures multiset(Keep(s, p)) <= multiset(s)
    ensures forall c :: p(c) ==> multiset(Keep(s, p))[c] == multiset(s)[c]
    decreases |s|
  {
    if s != [] {
      KeepIsFilter(s[1..], p);
      assert s == [s[0]] + s[1..];
    }
  }

  /** Filtering distributes over concatenation, so the kept characters stay in order. */
  lemma {:induction false} KeepConcat(a: string, b: string, p: char -> bool)
    ensures Keep(a + b, p) == Keep(a, p) + Keep(b, p)
    decreases |a|
  {
    if a != [] {
      assert (a + b)[1..] == a[1..] + b;
      KeepConcat(a[1..], b, p);
    } else {
      assert a + b == b;
    }
  }

  /** Filtering by a stronger class after a weaker one is filtering by the stronger one alone. */
  lemma {:induction false} KeepKeep(s: string, p: char -> bool, q: char -> bool)
    requires forall c :: q(c) ==> p(c)
    ensures Keep(Keep(s, p), q) == Keep(s, q)
    decreases |s|
  {
    if s != [] {
      KeepKeep(s[1..], p, q);
      KeepConcat(if p(s[0]) then [s[0]] else [], Keep(s[1..], p), q);
    }
  }

  /** The line boundaries of Python's `str.splitlines`. */
  predicate IsLineBreak(c: char) {
    || c == '\n' || c == '\r' || c == '\U{0B}' || c == '\U{0C}'
    || ('\U{1C}' <= c <= '\U{1E}')
    || c == '\U{85}' || c == '\U{2028}' || c == '\U{2029}'
  }

  predicate NoLineBreak(s: string) {
    forall j :: 0 <= j < |s| ==> !IsLineBreak(s[j])
  }

  /** Index of the first line boundary in `s`, or `|s|` when there is none. */
  function BreakIndex(s: string): (k: nat)
    ensures k <= |s|
    ensures k < |s| ==> IsLineBreak(s[k])
    ensures forall i :: 0 <= i < k ==> !IsLineBreak(s[i])
  {
    if s == [] then 0 else if IsLineBreak(s[0]) then 0 else 1 + BreakIndex(s[1..])
  }

  /**
   * `s.splitlines()`: the pieces between line boundaries, where "\r\n" counts as
   * one boundary and a final boundary ends the last line instead of starting an empty one.
   */
  function SplitLines(s: string): (lines: seq<string>)
    ensures forall i :: 0 <= i < |lines| ==> NoLineBreak(lines[i])
    decreases |s|
  {
    if s == [] then []
    else
      var k := BreakIndex(s);
      if k == |s| then [s]
      else
        var next := if s[k] == '\r' && k + 1 < |s| && s[k + 1] == '\n' then k + 2 else k + 1;
        [s[..k]] + SplitLines(s[next..])
  }

  /** `"\n".join(lines)`. */
  function JoinLines(lines: seq<string>): string {
    if |lines| == 0 then ""
    else if |lines| == 1 then lines[0]
    else lines[0] + "\n" + JoinLines(lines[1..])
  }

  /** Splitting undoes joining, for lines without boundaries whose last one is not empty. */
  lemma {:induction false} SplitJoin(lines: seq<string>)
    requires forall i :: 0 <= i < |lines| ==> NoLineBreak(lines[i])
    requires lines != [] ==> lines[|lines| - 1] != []
    ensures SplitLines(JoinLines(lines)) == lines
  {
    if |lines| == 1 {
      assert BreakIndex(lines[0]) == |lines[0]|;
    } else if |lines| > 1 {
      var s := JoinLines(lines);
      var a := lines[0];
      var rest := JoinLines(lines[1..]);
      assert s == a + "\n" + rest;
      assert BreakIndex(s) == |a| by {
        assert s == a + ("\n" + rest);
        BreakIndexPrefix(a, "\n" + rest);
      }
      assert s[..|a|] == a;
      assert s[|a| + 1..] == rest;
      SplitJoin(lines[1..]);
      JoinLinesNotEmpty(lines[1..]);
    }
  }

  lemma {:induction false} JoinLinesNotEmpty(lines: seq<string>)
    requires lines != [] && lines[|lines| - 1] != []
    ensures JoinLines(lines) != []
  {
    if |lines| > 1 {
      JoinLinesNotEmpty(lines[1..]);
    }
  }

  lemma {:induction false} BreakIndexPrefix(a: string, b: string)
    requires NoLineBreak(a) && b != [] && IsLineBreak(b[0])
    ensures BreakIndex(a + b) == |a|
    decreases |a|
  {
    if a != [] {
      assert (a + b)[1..] == a[1..] + b;
      BreakIndexPrefix(a[1..], b);
    } else {
      assert a + b == b;
    }
  }

  /** The two-line case: this is how the reconstructor's output is read back. */
  lemma SplitTwoLines(a: string, b: string)
    requires NoLineBreak(a) && NoLineBreak(b) && b != []
    ensures SplitLines(a + "\n" + b) == [a, b]
  {
    assert [a, b][1..] == [b];
    assert JoinLines([a, b]) == a + "\n" + b;
    SplitJoin([a, b]);
  }
}
