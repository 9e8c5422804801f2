/**
 * The text half of the passport reader: cleaning each OCR line of the
 * machine-readable zone, keeping the lines long enough to be MRZ lines, padding
 * them to 44 characters and joining the first two into the text the decoder reads.
 */
module PassportOcr {
  import opened Wrappers
  import opened Text
  import opened MrzDecoder
  import opened Lists

  /** A raw OCR line is an MRZ candidate when its stripped length reaches this. */
  const MinCandidateLength: nat := 25

  predicate NotBlank(c: char) {
    c != ' '
  }

  predicate NotFiller(c: char) {
    c != Filler
  }

  /** Characters that cleaning never rewrites, drops or creates. */
  predicate Plain(c: char) {
    c != Filler && c != 'K' && c != ' '
  }

  // ---------------------------------------------------------------------------
  // The steps of clean_line

  /** `s.replace(" ", "")`. */
  function RemoveBlanks(s: string): (r: string)
    ensures |r| <= |s|
    ensures forall k :: 0 <= k < |r| ==> r[k] != ' '
    ensures (forall k :: 0 <= k < |s| ==> s[k] != ' ') ==> r == s
  {
    Keep(s, NotBlank)
  }

  /** Removing the blanks takes nothing else away: every other character survives as often as it occurs. */
  lemma RemoveBlanksKeepsOthers(s: string)
    ensures multiset(RemoveBlanks(s)) <= multiset(s)
    ensures forall c :: c != ' ' ==> multiset(RemoveBlanks(s))[c] == multiset(s)[c]
  {
    KeepIsFilter(s, NotBlank);
  }

  /** `re.sub(r"K(?=<)", "<", s)`: a K directly before a filler becomes a filler. */
  function KBeforeFiller(s: string): (r: string)
    ensures |r| == |s|
    ensures forall i :: 0 <= i < |s| && s[i] != 'K' ==> r[i] == s[i]
    ensures forall i :: 0 <= i < |s| && s[i] == 'K' ==>
              (r[i] == Filler <==> i + 1 < |s| && s[i + 1] == Filler)
    ensures forall i :: 0 <= i < |s| && r[i] != Filler ==> r[i] == s[i]
  {
    seq(|s|, i requires 0 <= i < |s| =>
      if s[i] == 'K' && i + 1 < |s| && s[i + 1] == Filler then Filler else s[i])
  }

  /**
   * `re.sub(r"(?<=<)K", "<", s)`: a K directly after a filler becomes a filler.
   * The look-behind reads this step's input, so in "<KK" only the first K changes.
   */
  function KAfterFiller(s: string): (r: string)
    ensures |r| == |s|
    ensures forall i :: 0 <= i < |s| && s[i] != 'K' ==> r[i] == s[i]
    ensures forall i :: 0 <= i < |s| && s[i] == 'K' ==>
              (r[i] == Filler <==> 0 < i && s[i - 1] == Filler)
    ensures forall i :: 0 <= i < |s| && r[i] != Filler ==> r[i] == s[i]
  {
    seq(|s|, i requires 0 <= i < |s| =>
      if s[i] == 'K' && 0 < i && s[i - 1] == Filler then Filler else s[i])
  }

  /** Position `i` holds a K followed by one or more fillers up to the end of `s`. */
  predicate TrailingKAt(s: string, i: int) {
    0 <= i < |s| - 1 && s[i] == 'K' && forall k :: i < k < |s| ==> s[k] == Filler
  }

  /** `re.sub(r"K(<+)$", r"<\1", s)`: the K in front of a trailing run of fillers becomes a filler. */
  function TrailingK(s: string): (r: string)
    ensures |r| == |s|
    ensures forall i :: TrailingKAt(s, i) ==> r == s[i := Filler]
    ensures (forall i :: !TrailingKAt(s, i)) ==> r == s
  {
    var t := TrimRight(s, Filler);
    TrailingKIsTrimmed(s);
    if t != [] && |t| < |s| && t[|t| - 1] == 'K' then s[|t| - 1 := Filler] else s
  }

  lemma TrailingKIsTrimmed(s: string)
    ensures forall i :: TrailingKAt(s, i) ==> i == |TrimRight(s, Filler)| - 1
    ensures var t := TrimRight(s, Filler);
            t != [] && |t| < |s| && t[|t| - 1] == 'K' ==> TrailingKAt(s, |t| - 1)
  {
    var t := TrimRight(s, Filler);
    forall i | TrailingKAt(s, i) ensures i == |t| - 1 {
      assert s[i] != Filler;
      assert t[|t| - 1] == s[|t| - 1];
    }
  }

  /** The number of fillers `s` starts with. */
  function LeadingFillers(s: string): (n: nat)
    ensures n <= |s|
    ensures forall k :: 0 <= k < n ==> s[k] == Filler
    ensures n < |s| ==> s[n] != Filler
  {
    if s == [] || s[0] != Filler then 0 else 1 + LeadingFillers(s[1..])
  }

  /** Positions `k`, `k + 1` and `k + 2` all hold fillers. */
  predicate TripleAt(s: string, k: int) {
    0 <= k < |s| - 2 && s[k] == Filler && s[k + 1] == Filler && s[k + 2] == Filler
  }

  /** No three fillers in a row. */
  predicate NoTriple(s: string) {
    forall k :: 0 <= k < |s| - 2 ==> !TripleAt(s, k)
  }

  /**
   * `re.sub(r"<<{2,}", "<<", s)`: every run of three or more fillers shrinks to two;
   * shorter runs and every other character stay.
   */
  function CollapseFillers(s: string): (r: string)
    ensures |r| <= |s|
    ensures r == [] <==> s == []
    decreases |s|
  {
    if s == [] then []
    else if s[0] != Filler then [s[0]] + CollapseFillers(s[1..])
    else
      var n := LeadingFillers(s);
      (if n >= 3 then [Filler, Filler] else s[..n]) + CollapseFillers(s[n..])
  }

  /** The collapse leaves no three fillers in a row. */
  lemma {:induction false} CollapseHasNoTriple(s: string)
    ensures NoTriple(CollapseFillers(s))
    decreases |s|
  {
    if s != [] {
      if s[0] != Filler {
        CollapseHasNoTriple(s[1..]);
        ShortRunThenOther([s[0]], CollapseFillers(s[1..]));
      } else {
        var n := LeadingFillers(s);
        var run := if n >= 3 then [Filler, Filler] else s[..n];
        CollapseHasNoTriple(s[n..]);
        CollapseRunStep(s, n, run);
        ShortRunThenOther(run, CollapseFillers(s[n..]));
      }
    }
  }

  /** The collapse writes no character that is not already in its input. */
  lemma {:induction false} CollapseDrawsFromInput(s: string)
    ensures forall k :: 0 <= k < |CollapseFillers(s)| ==> CollapseFillers(s)[k] in s
    decreases |s|
  {
    if s != [] {
      var r := CollapseFillers(s);
      if s[0] != Filler {
        CollapseDrawsFromInput(s[1..]);
        forall k | 0 <= k < |r| ensures r[k] in s {
          if k > 0 {
            assert r[k] == CollapseFillers(s[1..])[k - 1];
            assert r[k] in s[1..];
          }
        }
      } else {
        var n := LeadingFillers(s);
        var run := if n >= 3 then [Filler, Filler] else s[..n];
        CollapseDrawsFromInput(s[n..]);
        CollapseRunStep(s, n, run);
        forall k | 0 <= k < |r| ensures r[k] in s {
          if k < |run| {
            assert r[k] == s[0];
          } else {
            assert r[k] == CollapseFillers(s[n..])[k - |run|];
            assert r[k] in s[n..];
          }
        }
      }
    }
  }

  /**
   * A prefix of at most two characters adds no triple in front of a string without one,
   * when the string starts with a non-filler or the prefix is one non-filler.
   */
  lemma ShortRunThenOther(run: string, rest: string)
    requires |run| <= 2 && NoTriple(rest)
    requires rest == [] || rest[0] != Filler || (|run| == 1 && run[0] != Filler)
    ensures NoTriple(run + rest)
  {
    var s := run + rest;
    forall k ensures !TripleAt(s, k) {
      if 0 <= k < |s| - 2 {
        if k >= |run| {
          assert s[k] == rest[k - |run|] && s[k + 1] == rest[k - |run| + 1] && s[k + 2] == rest[k - |run| + 2];
          assert !TripleAt(rest, k - |run|);
        } else if |run| == 1 && run[0] != Filler {
          assert s[0] == run[0];
        } else {
          assert s[|run|] == rest[0];
        }
      }
    }
  }

  // ---------------------------------------------------------------------------
  // Properties of the filler collapse

  lemma NoTripleSuffix(s: string, n: nat)
    requires NoTriple(s) && n <= |s|
    ensures NoTriple(s[n..])
  {
    forall k ensures !TripleAt(s[n..], k) {
      if 0 <= k < |s[n..]| - 2 {
        assert s[n..][k] == s[n + k] && s[n..][k + 1] == s[n + k + 1] && s[n..][k + 2] == s[n + k + 2];
        assert !TripleAt(s, n + k);
      }
    }
  }

  lemma ShortLeadingRun(s: string)
    requires NoTriple(s)
    ensures LeadingFillers(s) <= 2
  {
    if |s| >= 3 {
      assert !TripleAt(s, 0);
    }
  }

  /** A string without three fillers in a row passes the collapse unchanged. */
  lemma {:induction false} CollapseKeepsNoTriple(s: string)
    requires NoTriple(s)
    ensures CollapseFillers(s) == s
    decreases |s|
  {
    if s != [] {
      if s[0] != Filler {
        NoTripleSuffix(s, 1);
        CollapseKeepsNoTriple(s[1..]);
        assert s == [s[0]] + s[1..];
      } else {
        var n := LeadingFillers(s);
        ShortLeadingRun(s);
        NoTripleSuffix(s, n);
        CollapseKeepsNoTriple(s[n..]);
        assert s == s[..n] + s[n..];
      }
    }
  }

  /** Collapsing twice is collapsing once. */
  lemma CollapseIdempotent(s: string)
    ensures CollapseFillers(CollapseFillers(s)) == CollapseFillers(s)
  {
    CollapseHasNoTriple(s);
    CollapseKeepsNoTriple(CollapseFillers(s));
  }

  /** A string with three fillers in a row comes out strictly shorter. */
  lemma {:induction false} CollapseShortens(s: string)
    requires !NoTriple(s)
    ensures |CollapseFillers(s)| < |s|
    decreases |s|
  {
    var k :| 0 <= k < |s| - 2 && TripleAt(s, k);
    assert 0 <= k < |s| - 2 && s[k] == Filler && s[k + 1] == Filler && s[k + 2] == Filler;
    if s[0] != Filler {
      assert s[1..][k - 1] == s[k] && s[1..][k] == s[k + 1] && s[1..][k + 1] == s[k + 2];
      assert TripleAt(s[1..], k - 1);
      CollapseShortens(s[1..]);
    } else {
      var n := LeadingFillers(s);
      if n < 3 {
        assert s[n..][k - n] == s[k] && s[n..][k - n + 1] == s[k + 1] && s[n..][k - n + 2] == s[k + 2];
        assert TripleAt(s[n..], k - n);
        CollapseShortens(s[n..]);
      }
    }
  }

  lemma {:induction false} KeepFillersOnly(s: string)
    requires forall k :: 0 <= k < |s| ==> s[k] == Filler
    ensures Keep(s, NotFiller) == []
    decreases |s|
  {
    if s != [] {
      KeepFillersOnly(s[1..]);
    }
  }

  /** The collapse drops fillers only: every other character survives, in order. */
  lemma {:induction false} CollapseKeepsOthers(s: string)
    ensures Keep(CollapseFillers(s), NotFiller) == Keep(s, NotFiller)
    decreases |s|
  {
    if s != [] {
      if s[0] != Filler {
        CollapseKeepsOthers(s[1..]);
        KeepConcat([s[0]], CollapseFillers(s[1..]), NotFiller);
      } else {
        var n := LeadingFillers(s);
        CollapseKeepsOthers(s[n..]);
        RunKeepsNothing(s, n);
        CollapsedRunKeepsNothing(s, n);
      }
    }
  }

  lemma RunKeepsNothing(s: string, n: nat)
    requires n <= |s| && forall k :: 0 <= k < n ==> s[k] == Filler
    ensures Keep(s, NotFiller) == Keep(s[n..], NotFiller)
  {
    assert s == s[..n] + s[n..];
    KeepConcat(s[..n], s[n..], NotFiller);
    KeepFillersOnly(s[..n]);
  }

  lemma CollapsedRunKeepsNothing(s: string, n: nat)
    requires s != [] && s[0] == Filler && n == LeadingFillers(s)
    ensures Keep(CollapseFillers(s), NotFiller) == Keep(CollapseFillers(s[n..]), NotFiller)
  {
    var run := if n >= 3 then [Filler, Filler] else s[..n];
    CollapseRunStep(s, n, run);
    KeepSkipsFillers(run, CollapseFillers(s[n..]));
  }

  lemma CollapseRunStep(s: string, n: nat, run: string)
    requires s != [] && s[0] == Filler && n == LeadingFillers(s)
    requires run == if n >= 3 then [Filler, Filler] else s[..n]
    ensures CollapseFillers(s) == run + CollapseFillers(s[n..])
    ensures forall k :: 0 <= k < |run| ==> run[k] == Filler
  {
  }

  lemma KeepSkipsFillers(run: string, rest: string)
    requires forall k :: 0 <= k < |run| ==> run[k] == Filler
    ensures Keep(run + rest, NotFiller) == Keep(rest, NotFiller)
  {
    KeepConcat(run, rest, NotFiller);
    KeepFillersOnly(run);
  }

  /** Position `i` holds a filler that follows two fillers: the collapse drops it. */
  predicate SurplusFillerAt(s: string, i: int) {
    2 <= i < |s| && s[i] == Filler && s[i - 1] == Filler && s[i - 2] == Filler
  }

  /** The characters of `s[i..]` that are not surplus fillers: a pointwise reading of the collapse. */
  function Survivors(s: string, i: nat): string
    requires i <= |s|
    decreases |s| - i
  {
    if i == |s| then [] else (if SurplusFillerAt(s, i) then [] else [s[i]]) + Survivors(s, i + 1)
  }

  lemma {:induction false} SurplusRunVanishes(s: string, j: nat, m: nat)
    requires j <= m <= |s|
    requires forall k :: j <= k < m ==> SurplusFillerAt(s, k)
    ensures Survivors(s, j) == Survivors(s, m)
    decreases m - j
  {
    if j < m {
      SurplusRunVanishes(s, j + 1, m);
    }
  }

  /** A whole run of `n` fillers starting at `i` leaves two of them if `n >= 3`, all of them otherwise. */
  lemma RunSurvivors(s: string, i: nat, n: nat)
    requires 1 <= n && i + n <= |s|
    requires forall k :: i <= k < i + n ==> s[k] == Filler
    requires i == 0 || s[i - 1] != Filler
    ensures Survivors(s, i) == (if n >= 3 then [Filler, Filler] else s[i..i + n]) + Survivors(s, i + n)
  {
    assert !SurplusFillerAt(s, i);
    if n == 1 {
      assert s[i..i + n] == [s[i]];
    } else {
      LongRunSurvivors(s, i, n);
      if n == 2 {
        assert s[i..i + n] == [s[i], s[i + 1]];
      }
    }
  }

  lemma LongRunSurvivors(s: string, i: nat, n: nat)
    requires 2 <= n && i + n <= |s|
    requires forall k :: i <= k < i + n ==> s[k] == Filler
    requires i == 0 || s[i - 1] != Filler
    ensures Survivors(s, i) == [Filler, Filler] + Survivors(s, i + n)
  {
    SurvivorStep(s, i);
    SurvivorStep(s, i + 1);
    RunTailVanishes(s, i, n);
  }

  /** Past the first two fillers of a run, the rest of the run leaves nothing. */
  lemma RunTailVanishes(s: string, i: nat, n: nat)
    requires 2 <= n && i + n <= |s|
    requires forall k :: i <= k < i + n ==> s[k] == Filler
    ensures Survivors(s, i + 2) == Survivors(s, i + n)
  {
    RunTailIsSurplus(s, i, n);
    SurplusRunVanishes(s, i + 2, i + n);
  }

  /** In a run of fillers, every filler after the first two is surplus. */
  lemma RunTailIsSurplus(s: string, i: nat, n: nat)
    requires i + n <= |s|
    requires forall k :: i <= k < i + n ==> s[k] == Filler
    ensures forall k :: i + 2 <= k < i + n ==> SurplusFillerAt(s, k)
  {
    forall k | i + 2 <= k < i + n ensures SurplusFillerAt(s, k) {
      assert s[k] == Filler && s[k - 1] == Filler && s[k - 2] == Filler;
    }
  }

  /** A character that is not a surplus filler survives. */
  lemma SurvivorStep(s: string, i: nat)
    requires i < |s| && !SurplusFillerAt(s, i)
    ensures Survivors(s, i) == [s[i]] + Survivors(s, i + 1)
  {
  }

  lemma {:induction false} CollapseFrom(s: string, i: nat)
    requires i <= |s|
    requires i == 0 || i == |s| || s[i] != Filler || s[i - 1] != Filler
    ensures CollapseFillers(s[i..]) == Survivors(s, i)
    decreases |s| - i
  {
    if i < |s| {
      if s[i] != Filler {
        CollapseStepPlain(s, i);
        CollapseFrom(s, i + 1);
      } else {
        var n := CollapseStepRun(s, i);
        CollapseFrom(s, i + n);
      }
    }
  }

  lemma CollapseStepPlain(s: string, i: nat)
    requires i < |s| && s[i] != Filler
    ensures CollapseFillers(s[i..]) == [s[i]] + CollapseFillers(s[i + 1..])
    ensures Survivors(s, i) == [s[i]] + Survivors(s, i + 1)
  {
    assert s[i..][1..] == s[i + 1..];
    assert !SurplusFillerAt(s, i);
  }

  lemma CollapseStepRun(s: string, i: nat) returns (n: nat)
    requires i < |s| && s[i] == Filler && (i == 0 || s[i - 1] != Filler)
    ensures 1 <= n && i + n <= |s| && (i + n == |s| || s[i + n] != Filler)
    ensures var run := if n >= 3 then [Filler, Filler] else s[i..i + n];
            && CollapseFillers(s[i..]) == run + CollapseFillers(s[i + n..])
            && Survivors(s, i) == run + Survivors(s, i + n)
  {
    n := LeadingFillers(s[i..]);
    RunInPlace(s, i, n);
    RunSurvivors(s, i, n);
  }

  /** The leading run of `s[i..]`, read in `s` itself. */
  lemma RunInPlace(s: string, i: nat, n: nat)
    requires i < |s| && s[i] == Filler && n == LeadingFillers(s[i..])
    ensures 1 <= n && i + n <= |s|
    ensures forall k :: i <= k < i + n ==> s[k] == Filler
    ensures i + n == |s| || s[i + n] != Filler
    ensures s[i..][n..] == s[i + n..] && s[i..][..n] == s[i..i + n]
  {
    var t := s[i..];
    assert t[0] == s[i];
    forall k | i <= k < i + n ensures s[k] == Filler {
      assert s[k] == t[k - i];
    }
    if i + n < |s| {
      assert s[i + n] == t[n];
    }
  }

  /** The collapse drops exactly the fillers that follow two fillers, and keeps everything else. */
  lemma CollapseIsPointwise(s: string)
    ensures CollapseFillers(s) == Survivors(s, 0)
  {
    CollapseFrom(s, 0);
    assert s[0..] == s;
  }

  // ---------------------------------------------------------------------------
  // clean_line

  /**
   * `clean_line`: strip, drop the blanks, turn each K beside a filler into a filler
   * (before, after, and in front of a trailing run), then collapse long filler runs.
   */
  function CleanLine(s: string): (r: string)
    ensures |r| <= |s|
    ensures r == [] <==> forall k :: 0 <= k < |s| ==> IsSpace(s[k])
  {
    var t := RemoveBlanks(Strip(s));
    if t == [] then t
    else
      CollapseFillers(TrailingK(KAfterFiller(KBeforeFiller(t))))
  }

  /** A cleaned line holds no blank and no three fillers in a row. */
  lemma CleanLineForm(s: string)
    ensures forall k :: 0 <= k < |CleanLine(s)| ==> CleanLine(s)[k] != ' '
    ensures NoTriple(CleanLine(s))
  {
    var t := RemoveBlanks(Strip(s));
    if t != [] {
      var c := TrailingK(KAfterFiller(KBeforeFiller(t)));
      assert forall k :: 0 <= k < |c| ==> c[k] != ' ' by {
        var a := KBeforeFiller(t);
        var b := KAfterFiller(a);
        assert forall k :: 0 <= k < |b| ==> b[k] != ' ';
        if exists i :: TrailingKAt(b, i) {
          var i :| TrailingKAt(b, i);
          assert c == b[i := Filler];
        }
      }
      CollapseHasNoTriple(c);
      CollapseDrawsFromInput(c);
    }
  }

  /** A rewrite that only ever turns a K into a filler leaves the plain characters alone. */
  lemma {:induction false} KToFillerKeepsPlain(a: string, b: string)
    requires |a| == |b|
    requires forall i :: 0 <= i < |a| && a[i] != b[i] ==> a[i] == 'K' && b[i] == Filler
    ensures Keep(a, Plain) == Keep(b, Plain)
    decreases |a|
  {
    if a != [] {
      KToFillerKeepsPlain(a[1..], b[1..]);
    }
  }

  /** Cleaning keeps every character other than a blank, a filler or a K, in order. */
  lemma CleanLineKeepsPlain(s: string)
    ensures Keep(CleanLine(s), Plain) == Keep(Strip(s), Plain)
  {
    var t := RemoveBlanks(Strip(s));
    KeepKeep(Strip(s), NotBlank, Plain);
    if t != [] {
      var a := KBeforeFiller(t);
      var b := KAfterFiller(a);
      var c := TrailingK(b);
      KToFillerKeepsPlain(t, a);
      KToFillerKeepsPlain(a, b);
      TrailingKKeepsPlain(b);
      CollapseKeepsOthers(c);
      KeepKeep(CollapseFillers(c), NotFiller, Plain);
      KeepKeep(c, NotFiller, Plain);
    }
  }

  lemma TrailingKKeepsPlain(b: string)
    ensures Keep(TrailingK(b), Plain) == Keep(b, Plain)
  {
    var c := TrailingK(b);
    if exists i :: TrailingKAt(b, i) {
      var i :| TrailingKAt(b, i);
      assert c == b[i := Filler];
    }
    KToFillerKeepsPlain(b, c);
  }

  /** On a stripped line without blanks, cleaning is the four rewrites. */
  lemma CleanLineSteps(s: string)
    requires s != [] && !IsSpace(s[0]) && !IsSpace(s[|s| - 1])
    requires forall k :: 0 <= k < |s| ==> s[k] != ' '
    ensures CleanLine(s) == CollapseFillers(TrailingK(KAfterFiller(KBeforeFiller(s))))
  {
  }

  /** Positions `k` and `k + 1` hold a K and a filler, in either order. */
  predicate KBesideFillerAt(s: string, k: int) {
    0 <= k < |s| - 1 && ((s[k] == 'K' && s[k + 1] == Filler) || (s[k] == Filler && s[k + 1] == 'K'))
  }

  /** Without a K beside a filler, the three K rewrites change nothing. */
  lemma KRewritesKeepLine(s: string)
    requires forall k :: 0 <= k < |s| - 1 ==> !KBesideFillerAt(s, k)
    ensures TrailingK(KAfterFiller(KBeforeFiller(s))) == s
  {
    forall i | 0 <= i < |s| ensures KBeforeFiller(s)[i] == s[i] {
      assert !KBesideFillerAt(s, i);
    }
    forall i | 0 <= i < |s| ensures KAfterFiller(s)[i] == s[i] {
      assert !KBesideFillerAt(s, i - 1);
    }
    assert KBeforeFiller(s) == s;
    assert KAfterFiller(s) == s;
    forall i ensures !TrailingKAt(s, i) {
      assert !KBesideFillerAt(s, i);
    }
  }

  /** A line already in clean form (no blanks, no K beside a filler, no long filler run) is left as it is. */
  lemma CleanLineKeepsCleanLine(s: string)
    requires s == [] || (!IsSpace(s[0]) && !IsSpace(s[|s| - 1]))
    requires forall k :: 0 <= k < |s| ==> s[k] != ' '
    requires forall k :: 0 <= k < |s| - 1 ==> !KBesideFillerAt(s, k)
    requires NoTriple(s)
    ensures CleanLine(s) == s
  {
    if s != [] {
      CleanLineSteps(s);
      KRewritesKeepLine(s);
      CollapseKeepsNoTriple(s);
    }
  }

  /** Fillers can be collapsed after a prefix that holds none. */
  lemma {:induction false} CollapseAfterPlain(w: string, x: string)
    requires forall k :: 0 <= k < |w| ==> w[k] != Filler
    ensures CollapseFillers(w + x) == w + CollapseFillers(x)
    decreases |w|
  {
    if w != [] {
      assert (w + x)[1..] == w[1..] + x;
      CollapsePlainStep(w + x);
      CollapseAfterPlain(w[1..], x);
    } else {
      assert w + x == x;
    }
  }

  lemma CollapsePlainStep(s: string)
    requires s != [] && s[0] != Filler
    ensures CollapseFillers(s) == [s[0]] + CollapseFillers(s[1..])
  {
  }

  lemma {:induction false} FillersLead(s: string)
    requires forall k :: 0 <= k < |s| ==> s[k] == Filler
    ensures LeadingFillers(s) == |s|
    decreases |s|
  {
    if s != [] {
      FillersLead(s[1..]);
    }
  }

  /**
   * The OCR glitch the third rewrite names ('JOHNK<<<<'): a K misread in front of
   * the trailing fillers is turned into a filler, and the run then shrinks to two.
   */
  lemma CleanLineTrailingGlitch(w: string, m: nat)
    requires w != [] && !IsSpace(w[0]) && forall k :: 0 <= k < |w| ==> Plain(w[k])
    requires m >= 1
    ensures CleanLine(w + ['K'] + Repeat(Filler, m)) == w + [Filler, Filler]
  {
    GlitchSteps(w, m);
    GlitchCollapse(w, m);
  }

  lemma GlitchSteps(w: string, m: nat)
    requires w != [] && !IsSpace(w[0]) && forall k :: 0 <= k < |w| ==> Plain(w[k])
    requires m >= 1
    ensures CleanLine(w + ['K'] + Repeat(Filler, m)) == CollapseFillers(w + Repeat(Filler, m + 1))
  {
    var s := w + ['K'] + Repeat(Filler, m);
    assert s[0] == w[0] && s[|s| - 1] == Filler;
    forall k | 0 <= k < |s| ensures s[k] != ' ' {
      if k < |w| {
        assert s[k] == w[k];
      }
    }
    CleanLineSteps(s);
    GlitchRewrites(w, m);
  }

  lemma GlitchCollapse(w: string, m: nat)
    requires forall k :: 0 <= k < |w| ==> Plain(w[k])
    requires m >= 1
    ensures CollapseFillers(w + Repeat(Filler, m + 1)) == w + [Filler, Filler]
  {
    CollapseAfterRun(w, Repeat(Filler, m + 1));
  }

  lemma CollapseAfterRun(w: string, x: string)
    requires forall k :: 0 <= k < |w| ==> w[k] != Filler
    requires |x| >= 2 && forall k :: 0 <= k < |x| ==> x[k] == Filler
    ensures CollapseFillers(w + x) == w + [Filler, Filler]
  {
    CollapseAfterPlain(w, x);
    CollapseAllFillers(x);
  }

  lemma CollapseAllFillers(x: string)
    requires |x| >= 2 && forall k :: 0 <= k < |x| ==> x[k] == Filler
    ensures CollapseFillers(x) == [Filler, Filler]
  {
    FillersLead(x);
    assert x[|x|..] == [];
    if |x| == 2 {
      assert x[..2] == [Filler, Filler];
    }
  }

  lemma GlitchRewrites(w: string, m: nat)
    requires forall k :: 0 <= k < |w| ==> Plain(w[k])
    requires m >= 1
    ensures TrailingK(KAfterFiller(KBeforeFiller(w + ['K'] + Repeat(Filler, m)))) == w + Repeat(Filler, m + 1)
  {
    var f := w + Repeat(Filler, m + 1);
    assert KBeforeFiller(w + ['K'] + Repeat(Filler, m)) == f;
    KRewritesKeepLine(f);
  }

  lemma FirstPassRewrites(a: char)
    requires Plain(a)
    ensures TrailingK(KAfterFiller(KBeforeFiller(['K', 'K', Filler, a]))) == ['K', Filler, Filler, a]
  {
    var t := ['K', Filler, Filler, a];
    assert KBeforeFiller(['K', 'K', Filler, a]) == t;
    assert KAfterFiller(t) == t;
    assert t[3] == a;
    assert forall i :: !TrailingKAt(t, i);
  }

  lemma NoTripleWitness(a: char)
    requires Plain(a)
    ensures NoTriple(['K', Filler, Filler, a])
  {
  }

  lemma SecondPassRewrites(a: char)
    requires Plain(a)
    ensures TrailingK(KAfterFiller(KBeforeFiller(['K', Filler, Filler, a]))) == [Filler, Filler, Filler, a]
  {
    assert KBeforeFiller(['K', Filler, Filler, a]) == [Filler, Filler, Filler, a];
    KRewritesKeepLine([Filler, Filler, Filler, a]);
  }

  lemma SecondPassCollapse(a: char)
    requires Plain(a)
    ensures CollapseFillers([Filler, Filler, Filler, a]) == [Filler, Filler, a]
  {
    var s := [Filler, Filler, Filler, a];
    CollapseStepRunAtStart(s);
  }

  lemma CollapseStepRunAtStart(s: string)
    requires |s| == 4 && s[0] == Filler && s[1] == Filler && s[2] == Filler && s[3] != Filler
    ensures CollapseFillers(s) == [Filler, Filler, s[3]]
  {
    assert LeadingFillers(s[3..]) == 0;
    assert LeadingFillers(s) == 3;
    assert s[3..][1..] == [];
  }

  /**
   * Cleaning is not idempotent: in "KK<a" the first pass turns only the second K
   * into a filler, and a second pass then takes the first K as well.
   */
  lemma CleanLineNotIdempotent(a: char)
    requires Plain(a) && !IsSpace(a)
    ensures CleanLine(['K', 'K', Filler, a]) == ['K', Filler, Filler, a]
    ensures CleanLine(CleanLine(['K', 'K', Filler, a])) == [Filler, Filler, a]
  {
    CleanLineSteps(['K', 'K', Filler, a]);
    FirstPassRewrites(a);
    NoTripleWitness(a);
    CollapseKeepsNoTriple(['K', Filler, Filler, a]);
    CleanLineSteps(['K', Filler, Filler, a]);
    SecondPassRewrites(a);
    SecondPassCollapse(a);
  }

  // ---------------------------------------------------------------------------
  // pad44

  /** `re.sub(r"[^A-Z0-9<]", "", line.upper())`: upper-case, then keep the MRZ alphabet only. */
  function MrzChars(line: string): (r: string)
    ensures |r| <= |line|
    ensures forall k :: 0 <= k < |r| ==> IsMrzChar(r[k])
  {
    Keep(Upper(line), IsMrzChar)
  }

  /** Every MRZ character of the upper-cased line survives the filter, as often as it occurs. */
  lemma MrzCharsKeepsAlphabet(line: string)
    ensures multiset(MrzChars(line)) <= multiset(Upper(line))
    ensures forall c :: IsMrzChar(c) ==> multiset(MrzChars(line))[c] == multiset(Upper(line))[c]
  {
    KeepIsFilter(Upper(line), IsMrzChar);
  }

  /**
   * `pad44`: keep the MRZ alphabet; past 44 characters keep the first 43 and the last
   * one (the check digit); then fill up to 44 with fillers.
   */
  function Pad44(line: string): (r: string)
    ensures |r| == LineLength
    ensures forall k :: 0 <= k < |r| ==> IsMrzChar(r[k])
    ensures var f := MrzChars(line);
            if |f| <= LineLength then
              r[..|f|] == f && forall k :: |f| <= k < LineLength ==> r[k] == Filler
            else
              r[..LineLength - 1] == f[..LineLength - 1] && r[LineLength - 1] == f[|f| - 1]
  {
    var f := MrzChars(line);
    var t := if |f| > LineLength then f[..LineLength - 1] + [f[|f| - 1]] else f;
    LeftJustify(t, LineLength, Filler)
  }

  /** Upper-casing leaves a string of MRZ characters alone. */
  lemma UpperKeepsMrzChars(s: string)
    requires forall k :: 0 <= k < |s| ==> IsMrzChar(s[k])
    ensures Upper(s) == s
  {
    forall k | 0 <= k < |s| ensures Upper(s)[k] == s[k] {
      assert IsMrzChar(s[k]);
    }
  }

  /** A 44-character line of MRZ characters passes `pad44` unchanged. */
  lemma Pad44KeepsMrzLine(l: string)
    requires |l| == LineLength && forall k :: 0 <= k < |l| ==> IsMrzChar(l[k])
    ensures Pad44(l) == l
  {
    UpperKeepsMrzChars(l);
    assert MrzChars(l) == l;
    assert Pad44(l)[..|l|] == l;
  }

  /** Padding twice is padding once. */
  lemma Pad44Idempotent(line: string)
    ensures Pad44(Pad44(line)) == Pad44(line)
  {
    Pad44KeepsMrzLine(Pad44(line));
  }

  /** MRZ characters are never line boundaries. */
  lemma MrzLineHasNoBreak(l: string)
    requires forall k :: 0 <= k < |l| ==> IsMrzChar(l[k])
    ensures NoLineBreak(l)
  {
    forall j | 0 <= j < |l| ensures !IsLineBreak(l[j]) {
      assert IsMrzChar(l[j]);
    }
  }

  // ---------------------------------------------------------------------------
  // Picking the MRZ lines and joining them

  /** `len(l.strip()) >= 25`: a raw OCR line long enough to be an MRZ line. */
  predicate IsCandidate(raw: string)
    ensures IsCandidate(raw) ==> |raw| >= MinCandidateLength && CleanLine(raw) != []
  {
    |Strip(raw)| >= MinCandidateLength
  }

  /** `[clean_line(l) for l in lines if len(l.strip()) >= 25]`. */
  function CleanCandidates(lines: seq<string>): (r: seq<string>)
    ensures |r| <= |lines|
    ensures forall k :: 0 <= k < |r| ==> ImageOf(lines, IsCandidate, CleanLine, r[k])
  {
    ComprehensionImages(lines, IsCandidate, CleanLine);
    Comprehension(lines, IsCandidate, CleanLine)
  }

  /** `pad44(raw[0]) + "\n" + pad44(raw[1])` when there are two cleaned lines, nothing otherwise. */
  function Assemble(raw: seq<string>): (r: Option<string>)
    ensures r.Some? <==> |raw| >= 2
    ensures r.Some? ==>
              && |r.value| == 2 * LineLength + 1
              && r.value[..LineLength] == Pad44(raw[0])
              && r.value[LineLength] == '\n'
              && r.value[LineLength + 1..] == Pad44(raw[1])
  {
    if |raw| >= 2 then Some(Pad44(raw[0]) + "\n" + Pad44(raw[1])) else None
  }

  /** Lines 79 and 93-95: from the raw OCR text of the zone to the two-line MRZ text, if there is one. */
  function Reconstruct(mrzRaw: string): Option<string> {
    Assemble(CleanCandidates(SplitLines(mrzRaw)))
  }

  /**
   * Of the split OCR text, the reconstruction takes the first two candidate lines, in
   * order, and fails exactly when there are fewer than two.
   */
  lemma AssemblePicksFirstTwo(lines: seq<string>)
    ensures var i := FirstWhere(lines, IsCandidate, 0);
            var j := if i < |lines| then FirstWhere(lines, IsCandidate, i + 1) else |lines|;
            var r := Assemble(CleanCandidates(lines));
            && (r.None? <==> j == |lines|)
            && (r.Some? ==> i < j < |lines| && r.value == Pad44(CleanLine(lines[i])) + "\n" + Pad44(CleanLine(lines[j])))
  {
    var raw := CleanCandidates(lines);
    CandidatesPickFirstTwo(lines);
    if |raw| >= 2 {
      AssembleJoins(raw);
    }
  }

  lemma CandidatesPickFirstTwo(lines: seq<string>)
    ensures var raw := CleanCandidates(lines);
            var i := FirstWhere(lines, IsCandidate, 0);
            var j := if i < |lines| then FirstWhere(lines, IsCandidate, i + 1) else |lines|;
            && (|raw| >= 2 <==> j < |lines|)
            && (j < |lines| ==> i < j && raw[0] == CleanLine(lines[i]) && raw[1] == CleanLine(lines[j]))
  {
    FirstTwoResults(lines, IsCandidate, CleanLine);
  }

  lemma AssembleJoins(raw: seq<string>)
    requires |raw| >= 2
    ensures Assemble(raw) == Some(Pad44(raw[0]) + "\n" + Pad44(raw[1]))
  {
  }

  /** The reconstruction fails exactly when no two raw lines are candidates. */
  lemma ReconstructNoneIff(mrzRaw: string)
    ensures var lines := SplitLines(mrzRaw);
            Reconstruct(mrzRaw).None? <==>
              !exists i, j :: 0 <= i < j < |lines| && IsCandidate(lines[i]) && IsCandidate(lines[j])
  {
    TwoResultsIff(SplitLines(mrzRaw), IsCandidate, CleanLine);
  }

  /** Two padded lines joined by a newline are a text the decoder accepts and reads as those two lines. */
  lemma AssembledDecodes(raw: seq<string>)
    requires |raw| >= 2
    ensures DecodeMrz(Assemble(raw).value) == Ok(DecodeLines(Pad44(raw[0]), Pad44(raw[1])))
  {
    var l1 := Pad44(raw[0]);
    var l2 := Pad44(raw[1]);
    MrzLineHasNoBreak(l1);
    MrzLineHasNoBreak(l2);
    DecodeTwoLines(l1, l2);
    assert Assemble(raw).value == l1 + "\n" + l2;
  }

  /** Whatever the reconstruction builds is a text the decoder accepts and reads as its two lines. */
  lemma ReconstructionDecodes(mrzRaw: string)
    requires Reconstruct(mrzRaw).Some?
    ensures var v := Reconstruct(mrzRaw).value;
            DecodeMrz(v) == Ok(DecodeLines(v[..LineLength], v[LineLength + 1..]))
  {
    AssembledDecodes(CleanCandidates(SplitLines(mrzRaw)));
  }

  // ---------------------------------------------------------------------------
  // The whole text pipeline on MRZ lines

  /** Two MRZ lines in the form cleaning leaves alone pass the whole pipeline unchanged. */
  lemma CleanPairSurvives(l1: string, l2: string)
    requires |l1| == LineLength && |l2| == LineLength
    requires forall k :: 0 <= k < |l1| ==> IsMrzChar(l1[k])
    requires forall k :: 0 <= k < |l2| ==> IsMrzChar(l2[k])
    requires forall k :: 0 <= k < |l1| - 1 ==> !KBesideFillerAt(l1, k)
    requires forall k :: 0 <= k < |l2| - 1 ==> !KBesideFillerAt(l2, k)
    requires NoTriple(l1) && NoTriple(l2)
    ensures Reconstruct(l1 + "\n" + l2) == Some(l1 + "\n" + l2)
  {
    MrzLineHasNoBreak(l1);
    MrzLineHasNoBreak(l2);
    SplitTwoLines(l1, l2);
    MrzLineSurvives(l1);
    MrzLineSurvives(l2);
    ComprehensionOfTwo(l1, l2, IsCandidate, CleanLine);
    AssembleJoins([CleanLine(l1), CleanLine(l2)]);
  }

  /** A 44-character MRZ line in clean form is a candidate and is cleaned and padded back to itself. */
  lemma MrzLineSurvives(l: string)
    requires |l| == LineLength && forall k :: 0 <= k < |l| ==> IsMrzChar(l[k])
    requires forall k :: 0 <= k < |l| - 1 ==> !KBesideFillerAt(l, k)
    requires NoTriple(l)
    ensures IsCandidate(l) && Pad44(CleanLine(l)) == l
  {
    MrzLineIsStripped(l);
    CleanLineKeepsCleanLine(l);
    Pad44KeepsMrzLine(l);
  }

  lemma MrzLineIsStripped(l: string)
    requires l != [] && forall k :: 0 <= k < |l| ==> IsMrzChar(l[k])
    ensures !IsSpace(l[0]) && !IsSpace(l[|l| - 1]) && Strip(l) == l
    ensures forall k :: 0 <= k < |l| ==> l[k] != ' '
  {
    assert IsMrzChar(l[0]) && IsMrzChar(l[|l| - 1]);
    forall k | 0 <= k < |l| ensures l[k] != ' ' {
      assert IsMrzChar(l[k]);
    }
  }

  /**
   * A 44-character MRZ line with three fillers in a row and a check digit at its end
   * does not survive: the collapse shortens it and the padding puts a filler where the
   * check digit was.
   */
  lemma FillerRunShiftsLine(l: string)
    requires |l| == LineLength && forall k :: 0 <= k < |l| ==> IsMrzChar(l[k])
    requires !NoTriple(l) && l[LineLength - 1] != Filler
    ensures Pad44(CleanLine(l))[LineLength - 1] == Filler
    ensures Pad44(CleanLine(l)) != l
  {
    MrzLineIsStripped(l);
    CleanLineSteps(l);
    var c := TrailingK(KAfterFiller(KBeforeFiller(l)));
    RewritesKeepTriple(l);
    CollapseShortens(c);
    assert |MrzChars(CleanLine(l))| < LineLength;
  }

  /** The three K rewrites never touch a filler, so a run of three fillers stays. */
  lemma RewritesKeepTriple(s: string)
    requires !NoTriple(s)
    ensures !NoTriple(TrailingK(KAfterFiller(KBeforeFiller(s))))
  {
    var k :| 0 <= k < |s| - 2 && TripleAt(s, k);
    var a := KBeforeFiller(s);
    var b := KAfterFiller(a);
    var c := TrailingK(b);
    assert TripleAt(a, k);
    assert TripleAt(b, k);
    if exists i :: TrailingKAt(b, i) {
      var i :| TrailingKAt(b, i);
      assert c == b[i := Filler];
    }
    assert TripleAt(c, k);
  }

  /** The specimen's second line is all MRZ characters and holds the filler run after its personal number. */
  lemma SpecimenLine2Shape()
    ensures |SpecimenLine2| == LineLength
    ensures forall k :: 0 <= k < |SpecimenLine2| ==> IsMrzChar(SpecimenLine2[k])
    ensures TripleAt(SpecimenLine2, 37) && SpecimenLine2[LineLength - 1] == '0'
  {
    SpecimenLine2Fields();
    SpecimenPersonalField();
  }

  /**
   * The pipeline damages the specimen's second line: its run of five fillers shrinks to
   * two, and padding moves the final check digit out of column 43.
   */
  lemma SpecimenLine2Shifted()
    ensures Pad44(CleanLine(SpecimenLine2)) != SpecimenLine2
    ensures Pad44(CleanLine(SpecimenLine2))[LineLength - 1] == Filler
  {
    SpecimenLine2Shape();
    FillerRunShiftsLine(SpecimenLine2);
  }
}
