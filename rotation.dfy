/** Rotation of a sequence and of a sub-range of a sequence, in two forms: the
    naive one (`k` single steps, as `bitarray_rotate_left` performs them) and the
    closed form (one slice-and-append with the amount reduced modulo the length).
    "Left" follows the source: the element at position `j` moves to position `j - 1`,
    and the first element wraps around to the end. */
module Rotation {
  import opened ModArith

  /** One step of `bitarray_rotate_left_one`: every element moves one place toward the
      start and the first one goes to the end. */
  function RotateLeftOnce<T>(s: seq<T>): (r: seq<T>)
    ensures |r| == |s|
  {
    if |s| == 0 then s else s[1..] + [s[0]]
  }

  /** `k` single steps, one after another: the naive reference rotation. */
  function NaiveRotateLeft<T>(s: seq<T>, k: nat): (r: seq<T>)
    ensures |r| == |s|
  {
    if k == 0 then s else RotateLeftOnce(NaiveRotateLeft(s, k - 1))
  }

  /** Left rotation by any signed amount: position `j` receives the element `k` places
      further on, wrapping around; a negative amount rotates the other way. */
  function RotateLeft<T>(s: seq<T>, k: int): (r: seq<T>)
    ensures |r| == |s|
  {
    seq(|s|, j requires 0 <= j < |s| => s[(j + k) % |s|])
  }

  /** The rotation is the tail from `k % |s|` followed by the head before it. */
  lemma RotateLeftSplit<T>(s: seq<T>, k: int)
    requires |s| > 0
    ensures RotateLeft(s, k) == s[k % |s|..] + s[..k % |s|]
  {
    var n := |s|;
    var m := k % n;
    var r := RotateLeft(s, k);
    var t := s[m..] + s[..m];
    forall j | 0 <= j < n
      ensures r[j] == t[j]
    {
      ModAddMod(j, k, n);
      if j < n - m {
        ModOfSmall(j + m, n);
      } else {
        ModOfOneTurn(j + m, n);
      }
    }
  }

  /** Rotating by `a` and then by `b` is rotating by `a + b`. */
  lemma RotateLeftCompose<T>(s: seq<T>, a: int, b: int)
    ensures RotateLeft(RotateLeft(s, a), b) == RotateLeft(s, a + b)
  {
    var n := |s|;
    var r2 := RotateLeft(RotateLeft(s, a), b);
    var r := RotateLeft(s, a + b);
    forall j | 0 <= j < n
      ensures r2[j] == r[j]
    {
      ModAddTwice(j, a, b, n);
    }
  }

  /** Two amounts congruent modulo the length give the same rotation. */
  lemma RotateLeftModulo<T>(s: seq<T>, k: int, k': int)
    requires |s| > 0 && k % |s| == k' % |s|
    ensures RotateLeft(s, k) == RotateLeft(s, k')
  {
    var n := |s|;
    var r := RotateLeft(s, k);
    var r' := RotateLeft(s, k');
    forall j | 0 <= j < n
      ensures r[j] == r'[j]
    {
      ModAddMod(j, k, n);
      ModAddMod(j, k', n);
    }
  }

  /** A single step is the rotation by one. */
  lemma RotateLeftOnceIsRotateLeft<T>(s: seq<T>)
    ensures RotateLeftOnce(s) == RotateLeft(s, 1)
  {
    var n := |s|;
    var once := RotateLeftOnce(s);
    var r := RotateLeft(s, 1);
    forall j | 0 <= j < n
      ensures once[j] == r[j]
    {
      if j + 1 < n {
        ModOfSmall(j + 1, n);
      } else {
        ModOfOneTurn(j + 1, n);
      }
    }
  }

  /** Rotating by zero changes nothing. */
  lemma RotateLeftZero<T>(s: seq<T>)
    ensures RotateLeft(s, 0) == s
  {
    var r := RotateLeft(s, 0);
    forall j | 0 <= j < |s|
      ensures r[j] == s[j]
    {
      ModOfSmall(j, |s|);
    }
  }

  /** The naive rotation by `k` single steps is the closed-form rotation by `k`. */
  lemma {:induction false} NaiveIsRotateLeft<T>(s: seq<T>, k: nat)
    ensures NaiveRotateLeft(s, k) == RotateLeft(s, k)
  {
    if k == 0 {
      RotateLeftZero(s);
    } else {
      var prev := NaiveRotateLeft(s, k - 1);
      NaiveIsRotateLeft(s, k - 1);
      RotateLeftOnceIsRotateLeft(prev);
      RotateLeftCompose(s, k - 1, 1);
    }
  }

  /** Rotating by `k` and then by `-k` gives back the sequence. */
  lemma RotateLeftInverse<T>(s: seq<T>, k: int)
    ensures RotateLeft(RotateLeft(s, k), -k) == s
  {
    assert RotateLeft(RotateLeft(s, k), -k) == RotateLeft(s, k + -k) by {
      RotateLeftCompose(s, k, -k);
    }
    assert k + -k == 0;
    RotateLeftZero(s);
  }

  /** A rotation rearranges the elements and neither adds nor drops any. */
  lemma RotateLeftPermutes<T>(s: seq<T>, k: int)
    ensures multiset(RotateLeft(s, k)) == multiset(s)
  {
    if |s| > 0 {
      var m := k % |s|;
      RotateLeftSplit(s, k);
      assert s == s[..m] + s[m..];
    }
  }

  // ---- sub-ranges ----

  /** `s` with the range starting at `off` replaced by `mid`. */
  function WithRange<T>(s: seq<T>, off: nat, mid: seq<T>): (r: seq<T>)
    requires off + |mid| <= |s|
    ensures |r| == |s|
    ensures r[off..off + |mid|] == mid
    ensures forall p | 0 <= p < |s| && !(off <= p < off + |mid|) :: r[p] == s[p]
  {
    s[..off] + mid + s[off + |mid|..]
  }

  /** Writing a range twice keeps only the second write. */
  lemma WithRangeTwice<T>(s: seq<T>, off: nat, a: seq<T>, b: seq<T>)
    requires off + |a| <= |s| && |a| == |b|
    ensures WithRange(WithRange(s, off, a), off, b) == WithRange(s, off, b)
  {
  }

  /** Putting a range back unchanged changes nothing. */
  lemma WithRangeSame<T>(s: seq<T>, off: nat, len: nat)
    requires off + len <= |s|
    ensures WithRange(s, off, s[off..off + len]) == s
  {
    assert s[..off] + s[off..off + len] + s[off + len..] == s;
  }

  /** One step on a range: each position of the range takes its right-hand neighbour's
      element, the last position takes the range's first element, and nothing outside
      the range moves. */
  lemma RotateLeftOnceRangeAt<T>(s: seq<T>, off: nat, len: nat, p: nat)
    requires off + len <= |s| && p < |s|
    ensures WithRange(s, off, RotateLeftOnce(s[off..off + len]))[p] ==
      if off <= p && p + 1 < off + len then s[p + 1]
      else if len > 0 && p == off + len - 1 then s[off]
      else s[p]
  {
    var mid := RotateLeftOnce(s[off..off + len]);
    var r := WithRange(s, off, mid);
    if off <= p < off + len {
      assert r[off..off + len] == mid;
      assert r[p] == mid[p - off];
    }
  }

  /** The range `[off, off + len)` of `s` rotated left by `k`; everything outside it kept. */
  function RotateRange<T>(s: seq<T>, off: nat, len: nat, k: int): (r: seq<T>)
    requires off + len <= |s|
    ensures |r| == |s|
  {
    WithRange(s, off, RotateLeft(s[off..off + len], k))
  }

  /** Inside the range, position `p` receives the element `k` places further on,
      wrapping around within the range; outside it nothing moves. */
  lemma RotateRangeAt<T>(s: seq<T>, off: nat, len: nat, k: int, p: nat)
    requires off + len <= |s| && p < |s|
    ensures RotateRange(s, off, len, k)[p] ==
      if off <= p < off + len then s[off + (p - off + k) % len] else s[p]
  {
    if off <= p < off + len {
      var range := s[off..off + len];
      var mid := RotateLeft(range, k);
      var r := RotateRange(s, off, len, k);
      assert r == WithRange(s, off, mid);
      assert r[off..off + len] == mid;
      assert r[p] == mid[p - off];
      assert mid[p - off] == range[(p - off + k) % len];
    }
  }

  /** Position `p` of `t` holds what a rotation of the range `[off, off + len)` of `s`
      by `k` puts there. */
  ghost predicate RotatedAt<T>(s: seq<T>, t: seq<T>, off: nat, len: nat, k: int, p: nat)
    requires off + len <= |s| && p < |s| && |t| == |s|
  {
    t[p] == if off <= p < off + len then s[off + (p - off + k) % len] else s[p]
  }

  /** A sequence that agrees with the rotated range at every position is the rotated range. */
  lemma RotateRangeExt<T>(s: seq<T>, off: nat, len: nat, k: int, t: seq<T>)
    requires off + len <= |s| && |t| == |s|
    requires forall p | 0 <= p < |s| :: RotatedAt(s, t, off, len, k, p)
    ensures t == RotateRange(s, off, len, k)
  {
    forall p | 0 <= p < |s|
      ensures t[p] == RotateRange(s, off, len, k)[p]
    {
      assert RotatedAt(s, t, off, len, k, p);
      RotateRangeAt(s, off, len, k, p);
    }
  }

  /** The amount only matters modulo the range length. */
  lemma RotateRangeModulo<T>(s: seq<T>, off: nat, len: nat, k: int, k': int)
    requires off + len <= |s| && len > 0 && k % len == k' % len
    ensures RotateRange(s, off, len, k) == RotateRange(s, off, len, k')
  {
    RotateLeftModulo(s[off..off + len], k, k');
  }

  /** Rotating a range by `k` and then by `-k` restores it. */
  lemma RotateRangeInverse<T>(s: seq<T>, off: nat, len: nat, k: int)
    requires off + len <= |s|
    ensures RotateRange(RotateRange(s, off, len, k), off, len, -k) == s
  {
    var mid := RotateLeft(s[off..off + len], k);
    RotateLeftInverse(s[off..off + len], k);
    WithRangeTwice(s, off, mid, s[off..off + len]);
  }

  /** One more single step of the range advances the naive rotation by one. */
  lemma NaiveRangeStep<T>(o: seq<T>, off: nat, len: nat, i: nat, cur: seq<T>)
    requires off + len <= |o|
    requires cur == WithRange(o, off, NaiveRotateLeft(o[off..off + len], i))
    ensures WithRange(cur, off, RotateLeftOnce(cur[off..off + len]))
         == WithRange(o, off, NaiveRotateLeft(o[off..off + len], i + 1))
  {
    var range := o[off..off + len];
    assert cur[off..off + len] == NaiveRotateLeft(range, i);
    WithRangeTwice(o, off, NaiveRotateLeft(range, i), NaiveRotateLeft(range, i + 1));
  }

  /** The naive range rotation (`k` single steps) is the closed-form one. */
  lemma NaiveRangeIsRotateRange<T>(s: seq<T>, off: nat, len: nat, k: nat)
    requires off + len <= |s|
    ensures WithRange(s, off, NaiveRotateLeft(s[off..off + len], k)) == RotateRange(s, off, len, k)
  {
    NaiveIsRotateLeft(s[off..off + len], k);
  }

  /** `k` single steps rotate the range by any amount congruent to `k`. */
  lemma NaiveRangeModulo<T>(s: seq<T>, off: nat, len: nat, k: nat, k': int)
    requires off + len <= |s| && len > 0 && k % len == k' % len
    ensures WithRange(s, off, NaiveRotateLeft(s[off..off + len], k)) == RotateRange(s, off, len, k')
  {
    NaiveRangeIsRotateRange(s, off, len, k);
    RotateRangeModulo(s, off, len, k, k');
  }

  // ---- the single step, position by position ----

  /** One single step of the range `[off, off + len)`, position by position: each
      position of the range takes its right-hand neighbour's element, the last one takes
      the range's first element, and nothing outside the range moves. */
  function RangeStep<T>(s: seq<T>, off: nat, len: nat): (r: seq<T>)
    requires off + len <= |s|
    ensures |r| == |s|
  {
    seq(|s|, p requires 0 <= p < |s| =>
      if off <= p && p + 1 < off + len then s[p + 1]
      else if len > 0 && p == off + len - 1 then s[off]
      else s[p])
  }

  /** The position-by-position step is the single step applied to the range. */
  lemma RangeStepIsRotateLeftOnce<T>(s: seq<T>, off: nat, len: nat)
    requires off + len <= |s|
    ensures RangeStep(s, off, len) == WithRange(s, off, RotateLeftOnce(s[off..off + len]))
  {
    var a := RangeStep(s, off, len);
    var b := WithRange(s, off, RotateLeftOnce(s[off..off + len]));
    forall p | 0 <= p < |s|
      ensures a[p] == b[p]
    {
      RotateLeftOnceRangeAt(s, off, len, p);
    }
  }

  /** `k` single steps of the range, one after another. */
  function RangeSteps<T>(s: seq<T>, off: nat, len: nat, k: nat): (r: seq<T>)
    requires off + len <= |s|
    ensures |r| == |s|
  {
    if k == 0 then s else RangeStep(RangeSteps(s, off, len, k - 1), off, len)
  }

  /** `k` single steps of the range are the naive rotation of the range by `k`. */
  lemma {:induction false} RangeStepsIsNaive<T>(s: seq<T>, off: nat, len: nat, k: nat)
    requires off + len <= |s|
    ensures RangeSteps(s, off, len, k) == WithRange(s, off, NaiveRotateLeft(s[off..off + len], k))
  {
    if k == 0 {
      WithRangeSame(s, off, len);
    } else {
      RangeStepsIsNaive(s, off, len, k - 1);
      RangeStepAdvances(s, off, len, k - 1, RangeSteps(s, off, len, k - 1));
    }
  }

  /** A single step after the naive rotation by `i` is the naive rotation by `i + 1`. */
  lemma RangeStepAdvances<T>(o: seq<T>, off: nat, len: nat, i: nat, cur: seq<T>)
    requires off + len <= |o|
    requires cur == WithRange(o, off, NaiveRotateLeft(o[off..off + len], i))
    ensures RangeStep(cur, off, len) == WithRange(o, off, NaiveRotateLeft(o[off..off + len], i + 1))
  {
    RangeStepIsRotateLeftOnce(cur, off, len);
    NaiveRangeStep(o, off, len, i, cur);
  }

  /** `k` single steps rotate the range left by any amount congruent to `k`. */
  lemma RangeStepsModulo<T>(s: seq<T>, off: nat, len: nat, k: nat, k': int)
    requires off + len <= |s| && len > 0 && k % len == k' % len
    ensures RangeSteps(s, off, len, k) == RotateRange(s, off, len, k')
  {
    RangeStepsIsNaive(s, off, len, k);
    NaiveRangeModulo(s, off, len, k, k');
  }

  /** The state part-way through a single step done in place: positions `off` to
      `i - 1` already hold their right-hand neighbours, every other position is as
      before. */
  function PartlyShifted<T>(s: seq<T>, off: nat, i: nat): (r: seq<T>)
    requires off <= i < |s|
    ensures |r| == |s|
  {
    seq(|s|, p requires 0 <= p < |s| => if off <= p < i then s[p + 1] else s[p])
  }

  /** Moving the element at `i + 1` down to `i` advances the partial step by one place. */
  lemma PartlyShiftedStep<T>(s: seq<T>, off: nat, i: nat)
    requires off <= i && i + 1 < |s|
    ensures PartlyShifted(s, off, i)[i := s[i + 1]] == PartlyShifted(s, off, i + 1)
  {
    var t := PartlyShifted(s, off, i)[i := s[i + 1]];
    forall p | 0 <= p < |s|
      ensures t[p] == PartlyShifted(s, off, i + 1)[p]
    {
    }
  }

  /** Writing the saved first element at the range's last position completes the step. */
  lemma PartlyShiftedDone<T>(s: seq<T>, off: nat, len: nat, i: nat)
    requires off < |s| && off + len <= |s|
    requires if len == 0 then i == off else i + 1 == off + len
    ensures PartlyShifted(s, off, i)[i := s[off]] == RangeStep(s, off, len)
  {
    var t := PartlyShifted(s, off, i)[i := s[off]];
    forall p | 0 <= p < |s|
      ensures t[p] == RangeStep(s, off, len)[p]
    {
    }
  }
}
