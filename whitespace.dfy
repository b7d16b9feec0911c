/**
 * The whitespace normaliser `s.gsub(/>\s+</, '><')` that the document code applies to every
 * HTML source and to every part it rewrites: each run of whitespace that lies between a `>`
 * and the next `<` is deleted.
 */
module Whitespace {
  import opened Text

  /** The end of the maximal run of whitespace that starts at index `i` of `s`. */
  function RunEnd(s: string, i: nat): (e: nat)
    requires i <= |s|
    ensures i <= e <= |s|
    ensures forall k :: i <= k < e ==> IsSpace(s[k])
    ensures e == |s| || !IsSpace(s[e])
    decreases |s| - i
  {
    if i < |s| && IsSpace(s[i]) then RunEnd(s, i + 1) else i
  }

  /**
   * `>\s+<` matches at index 0 of `s`. `\s+` is greedy and backtracking only shortens it, which
   * leaves a whitespace character where `<` is needed, so the match exists exactly when the
   * maximal run after the `>` is non-empty and is followed by `<`.
   */
  predicate MatchesAtStart(s: string) {
    |s| > 0 && s[0] == '>' && RunEnd(s, 1) > 1 && RunEnd(s, 1) < |s| && s[RunEnd(s, 1)] == '<'
  }

  /**
   * `gsub(/>\s+</, '><')`: scanning left to right, a match at the current position is replaced
   * by `><` and the scan resumes after it; otherwise the current character is kept. (Resuming at
   * the `<` instead of after it gives the same result, since `<` cannot start a match.)
   */
  function Squeeze(s: string): string
    decreases |s|
  {
    if s == [] then []
    else if MatchesAtStart(s) then ">" + Squeeze(s[RunEnd(s, 1)..])
    else [s[0]] + Squeeze(s[1..])
  }

  /** `s[i]` is `>`, `s[j]` is `<`, and between them lies a non-empty run of whitespace only. */
  ghost predicate Gap(s: string, i: int, j: int) {
    0 <= i && i + 1 < j < |s| && s[i] == '>' && s[j] == '<' &&
    forall k :: i < k < j ==> IsSpace(s[k])
  }

  /** No `>`-whitespace-`<` remains anywhere in `s`. */
  ghost predicate GapFree(s: string) {
    forall i, j :: !Gap(s, i, j)
  }

  /** The non-whitespace characters of `s`, in order. */
  function NonSpace(s: string): (r: string)
    ensures |r| <= |s|
  {
    if s == [] then [] else (if IsSpace(s[0]) then [] else [s[0]]) + NonSpace(s[1..])
  }

  lemma {:induction false} NonSpaceAppend(a: string, b: string)
    ensures NonSpace(a + b) == NonSpace(a) + NonSpace(b)
    decreases |a|
  {
    if a == [] {
      assert a + b == b;
    } else {
      assert (a + b)[0] == a[0] && (a + b)[1..] == a[1..] + b;
      NonSpaceAppend(a[1..], b);
      var h := if IsSpace(a[0]) then [] else [a[0]];
      calc {
        NonSpace(a + b);
        h + NonSpace(a[1..] + b);
        h + (NonSpace(a[1..]) + NonSpace(b));
        (h + NonSpace(a[1..])) + NonSpace(b);
        NonSpace(a) + NonSpace(b);
      }
    }
  }

  lemma {:induction false} NonSpaceOfSpaces(a: string)
    requires AllSpaces(a)
    ensures NonSpace(a) == []
    decreases |a|
  {
    if a != [] {
      NonSpaceOfSpaces(a[1..]);
    }
  }

  // ---------------------------------------------------------------------------
  // Two unfolding facts

  /** The first character always survives. */
  lemma SqueezeHead(s: string)
    requires s != []
    ensures Squeeze(s) != [] && Squeeze(s)[0] == s[0]
  {
  }

  /** A leading run of whitespace is copied unchanged (no match can start inside it). */
  lemma {:induction false} SqueezeSpaces(s: string, e: nat)
    requires e <= |s| && forall k :: 0 <= k < e ==> IsSpace(s[k])
    ensures Squeeze(s) == s[..e] + Squeeze(s[e..])
    decreases e
  {
    if e > 0 {
      assert !MatchesAtStart(s);
      SqueezeSpaces(s[1..], e - 1);
      assert s[1..][e - 1..] == s[e..];
      assert s[..e] == [s[0]] + s[1..][..e - 1];
    }
  }

  // ---------------------------------------------------------------------------
  // The properties

  /** Afterwards no `>`-whitespace-`<` remains. */
  lemma {:induction false} SqueezeGapFree(s: string)
    ensures GapFree(Squeeze(s))
    decreases |s|
  {
    if s == [] {
      return;
    }
    var r := Squeeze(s);
    if MatchesAtStart(s) {
      var e := RunEnd(s, 1);
      var t := s[e..];
      SqueezeGapFree(t);
      SqueezeHead(t);
      assert r == ">" + Squeeze(t);
      forall i, j ensures !Gap(r, i, j) {
        if i == 0 {
          assert r[1] == '<';
        } else if i > 0 {
          GapInTail(r, Squeeze(t), i, j);
        }
      }
    } else {
      var rest := Squeeze(s[1..]);
      SqueezeGapFree(s[1..]);
      assert r == [s[0]] + rest;
      forall i, j ensures !Gap(r, i, j) {
        if i == 0 {
          NoGapAtStart(s, j);
        } else if i > 0 {
          GapInTail(r, rest, i, j);
        }
      }
    }
  }

  /** A gap that does not start at the first character is a gap of the tail. */
  lemma GapInTail(r: string, tail: string, i: int, j: int)
    requires |r| == |tail| + 1 && r[1..] == tail && i > 0
    ensures Gap(r, i, j) ==> Gap(tail, i - 1, j - 1)
  {
    if Gap(r, i, j) {
      forall k | i - 1 < k < j - 1 ensures IsSpace(tail[k]) {
        assert tail[k] == r[k + 1];
      }
    }
  }

  /** When no match starts at index 0, the kept first character cannot open a gap. */
  lemma NoGapAtStart(s: string, j: int)
    requires s != [] && !MatchesAtStart(s)
    ensures !Gap([s[0]] + Squeeze(s[1..]), 0, j)
  {
    var r := [s[0]] + Squeeze(s[1..]);
    var e := RunEnd(s, 1);
    var head, rest := s[..e], Squeeze(s[e..]);
    KeptRun(s, e);
    assert r == head + rest;
    if s[0] == '>' && 1 < j < |r| {
      AppendIndex(head, rest, j);
      if j < e {
        assert r[j] == s[j] && IsSpace(s[j]);
      } else {
        AppendIndex(head, rest, e);
        SqueezeHead(s[e..]);
        assert r[e] == s[e] && !IsSpace(r[e]);
      }
    }
  }

  /** Normalising the tail after a first character copies the whitespace run that follows it. */
  lemma KeptRun(s: string, e: nat)
    requires s != [] && e == RunEnd(s, 1)
    ensures [s[0]] + Squeeze(s[1..]) == s[..e] + Squeeze(s[e..])
  {
    var t := s[1..];
    forall k | 0 <= k < e - 1 ensures IsSpace(t[k]) {
      assert t[k] == s[k + 1];
    }
    SqueezeSpaces(t, e - 1);
    assert t[..e - 1] == s[1..e];
    assert t[e - 1..] == s[e..];
    ShiftRun(s, e, Squeeze(s[e..]));
  }

  lemma ShiftRun(s: string, e: nat, tail: string)
    requires 1 <= e <= |s|
    ensures [s[0]] + (s[1..e] + tail) == s[..e] + tail
  {
    assert s[..e] == [s[0]] + s[1..e];
  }

  /** A string without a `>`-whitespace-`<` is left as it is. */
  lemma {:induction false} GapFreeUnchanged(s: string)
    requires GapFree(s)
    ensures Squeeze(s) == s
    decreases |s|
  {
    if s != [] {
      if MatchesAtStart(s) {
        assert Gap(s, 0, RunEnd(s, 1));
        assert false;
      }
      forall i, j ensures !Gap(s[1..], i, j) {
        if Gap(s[1..], i, j) {
          assert Gap(s, i + 1, j + 1);
          assert false;
        }
      }
      GapFreeUnchanged(s[1..]);
    }
  }

  /** The strings the normaliser leaves alone are exactly the gap-free ones. */
  lemma SqueezeFixpoint(s: string)
    ensures Squeeze(s) == s <==> GapFree(s)
  {
    SqueezeGapFree(s);
    if GapFree(s) {
      GapFreeUnchanged(s);
    }
  }

  /** Applying the normaliser twice equals applying it once. */
  lemma SqueezeIdempotent(s: string)
    ensures Squeeze(Squeeze(s)) == Squeeze(s)
  {
    SqueezeGapFree(s);
    GapFreeUnchanged(Squeeze(s));
  }

  /** Only whitespace is deleted: the other characters survive, all of them, in order. */
  lemma {:induction false} SqueezeDeletesOnlySpaces(s: string)
    ensures NonSpace(Squeeze(s)) == NonSpace(s)
    ensures |Squeeze(s)| <= |s|
    decreases |s|
  {
    if s == [] {
      return;
    }
    if MatchesAtStart(s) {
      var e := RunEnd(s, 1);
      SqueezeDeletesOnlySpaces(s[e..]);
      NonSpaceAppend(">", Squeeze(s[e..]));
      assert s == ">" + s[1..e] + s[e..];
      NonSpaceAppend(">" + s[1..e], s[e..]);
      NonSpaceAppend(">", s[1..e]);
      NonSpaceOfSpaces(s[1..e]);
    } else {
      SqueezeDeletesOnlySpaces(s[1..]);
      NonSpaceAppend([s[0]], Squeeze(s[1..]));
      assert s == [s[0]] + s[1..];
      NonSpaceAppend([s[0]], s[1..]);
    }
  }

  // ---------------------------------------------------------------------------
  // Exactly which characters are deleted

  /** Position `k` of `s` lies strictly inside a `>`-whitespace-`<` gap. */
  ghost predicate InGap(s: string, k: int) {
    exists i, j :: Gap(s, i, j) && i < k < j
  }

  /** The characters of `s[m..]` that lie inside no gap of `s`, in order. */
  ghost function KeptFrom(s: string, m: nat): string
    requires m <= |s|
    decreases |s| - m
  {
    if m == |s| then [] else (if InGap(s, m) then [] else [s[m]]) + KeptFrom(s, m + 1)
  }

  /** A run of whitespace ending at a non-space (or at the end) is the maximal one. */
  lemma {:induction false} RunEndUnique(s: string, i: nat, e: nat)
    requires i <= e <= |s|
    requires forall k :: i <= k < e ==> IsSpace(s[k])
    requires e == |s| || !IsSpace(s[e])
    ensures RunEnd(s, i) == e
    decreases e - i
  {
    if i < e {
      RunEndUnique(s, i + 1, e);
    }
  }

  /** A match at the start of `s[m..]` is exactly a gap of `s` that opens at `m`. */
  lemma MatchIsGap(s: string, m: nat)
    requires m < |s|
    ensures MatchesAtStart(s[m..]) <==> exists j :: Gap(s, m, j)
    ensures MatchesAtStart(s[m..]) ==> Gap(s, m, m + RunEnd(s[m..], 1))
  {
    var t := s[m..];
    var e := RunEnd(t, 1);
    if MatchesAtStart(t) {
      assert Gap(s, m, m + e) by {
        forall k | m < k < m + e ensures IsSpace(s[k]) {
          assert s[k] == t[k - m];
        }
      }
    }
    if j :| Gap(s, m, j) {
      RunEndUnique(t, 1, j - m);
    }
  }

  /** Every position of `s[m..e]` lies inside a gap, so none of them is kept. */
  lemma {:induction false} SkipGapInterior(s: string, m: nat, e: nat)
    requires m <= e <= |s|
    requires forall k :: m <= k < e ==> InGap(s, k)
    ensures KeptFrom(s, m) == KeptFrom(s, e)
    decreases e - m
  {
    if m < e {
      SkipGapInterior(s, m + 1, e);
    }
  }

  /**
   * From a position that no gap straddles, normalising the rest of the string keeps exactly
   * the characters of the rest that lie in no gap.
   */
  lemma {:induction false} SqueezeKeepsFrom(s: string, m: nat)
    requires m <= |s|
    requires forall i, j :: Gap(s, i, j) ==> !(i < m < j)
    ensures Squeeze(s[m..]) == KeptFrom(s, m)
    decreases |s| - m
  {
    if m == |s| {
      return;
    }
    assert !InGap(s, m);
    assert KeptFrom(s, m) == [s[m]] + KeptFrom(s, m + 1);
    var t := s[m..];
    MatchIsGap(s, m);
    if MatchesAtStart(t) {
      var e := m + RunEnd(t, 1);
      assert Squeeze(t) == ">" + Squeeze(t[RunEnd(t, 1)..]);
      assert t[RunEnd(t, 1)..] == s[e..];
      GapInterior(s, m, e);
      SkipGapInterior(s, m + 1, e);
      NoGapStraddles(s, m, e);
      SqueezeKeepsFrom(s, e);
    } else {
      assert Squeeze(t) == [t[0]] + Squeeze(t[1..]);
      assert t[1..] == s[m + 1..];
      assert forall i, j :: Gap(s, i, j) ==> !(i < m + 1 < j);
      SqueezeKeepsFrom(s, m + 1);
    }
  }

  /** The positions strictly inside a gap are in a gap. */
  lemma GapInterior(s: string, m: nat, e: nat)
    requires Gap(s, m, e)
    ensures forall k :: m + 1 <= k < e ==> InGap(s, k)
  {
    forall k | m + 1 <= k < e ensures InGap(s, k) {
      assert Gap(s, m, e) && m < k < e;
    }
  }

  /** The `<` that closes a gap lies strictly inside no gap. */
  lemma NoGapStraddles(s: string, m: nat, e: nat)
    requires Gap(s, m, e)
    ensures forall i, j :: Gap(s, i, j) ==> !(i < e < j)
  {
    forall i, j | Gap(s, i, j) ensures !(i < e < j) {
      assert !IsSpace(s[e]);
    }
  }

  /**
   * The normaliser deletes exactly the characters that lie strictly between a `>` and a `<`
   * separated by whitespace only: every other character is kept, in order.
   */
  lemma SqueezeDeletesExactlyGaps(s: string)
    ensures Squeeze(s) == KeptFrom(s, 0)
  {
    assert s[0..] == s;
    SqueezeKeepsFrom(s, 0);
  }
}
