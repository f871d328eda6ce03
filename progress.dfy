/**
 * Progress arithmetic of the backfill: the percentage after member `i` of
 * `total`, the predicate deciding whether that member's progress is shown,
 * the ten-segment bar, and the list of members at which an edit is emitted.
 */
module Progress {

  const FilledSegment: char := '\U{2588}'
  const EmptySegment: char := '\U{2591}'

  /** Percentage after `i` of `total` members, rounded down. */
  function Percent(i: nat, total: nat): (p: nat)
    requires total > 0
    ensures i <= total ==> p <= 100
    ensures i == total ==> p == 100
  {
    var p := (i * 100) / total;
    PercentFacts(i, total, p);
    p
  }

  /** The percentage is the floor of `i * 100 / total`: the largest `p` with `p * total <= i * 100`. */
  lemma PercentFloor(i: nat, total: nat)
    requires total > 0
    ensures Percent(i, total) * total <= i * 100 < (Percent(i, total) + 1) * total
  {
    PercentFacts(i, total, Percent(i, total));
  }

  lemma PercentFacts(i: nat, total: nat, p: nat)
    requires total > 0 && p == (i * 100) / total
    ensures p * total <= i * 100 < (p + 1) * total
    ensures i <= total ==> p <= 100
    ensures i == total ==> p == 100
  {
    DivisionBounds(i * 100, total);
    if i <= total {
      MulMonotone(i, total, 100);
      if p > 100 {
        MulMonotone(101, p, total);
      }
    }
    if i == total {
      if p < 100 {
        MulMonotone(p + 1, 100, total);
      }
    }
  }

  lemma DivisionBounds(a: nat, d: nat)
    requires d > 0
    ensures (a / d) * d <= a < (a / d + 1) * d
  {
    assert a == (a / d) * d + a % d;
  }

  /** An edit is emitted at a multiple of ten percent and at the last member. */
  predicate ShouldEmit(i: nat, total: nat)
    requires total > 0
  {
    Percent(i, total) % 10 == 0 || i == total
  }

  /** `c * n`: `n` copies of `c`, nothing when `n` is not positive. */
  function Repeat(c: char, n: int): (s: string)
    ensures |s| == (if n <= 0 then 0 else n)
    ensures forall k :: 0 <= k < |s| ==> s[k] == c
    decreases n
  {
    if n <= 0 then [] else [c] + Repeat(c, n - 1)
  }

  /** The bar: `percent / 10` filled segments followed by the empty ones up to ten. */
  function Bar(percent: int): (b: string)
    ensures 0 <= percent <= 100 ==> |b| == 10
    ensures 0 <= percent <= 100 ==>
              forall k :: 0 <= k < 10 ==>
                b[k] == (if k < percent / 10 then FilledSegment else EmptySegment)
  {
    Repeat(FilledSegment, percent / 10) + Repeat(EmptySegment, 10 - percent / 10)
  }

  /** The members `1..k` (in order) whose progress is shown out of `total`. */
  function EmitPoints(total: nat, k: nat): seq<nat>
    requires total > 0
  {
    if k == 0 then []
    else EmitPoints(total, k - 1) + (if ShouldEmit(k, total) then [k] else [])
  }

  /** The emit points are exactly the members `1..k` that satisfy the throttle. */
  lemma {:induction false} EmitPointsMembers(total: nat, k: nat)
    requires total > 0
    ensures forall x :: x in EmitPoints(total, k) <==> 1 <= x <= k && ShouldEmit(x, total)
  {
    if k > 0 {
      EmitPointsMembers(total, k - 1);
    }
  }

  /** The emit points come in strictly increasing member order. */
  lemma {:induction false} EmitPointsIncreasing(total: nat, k: nat)
    requires total > 0
    ensures forall x :: x in EmitPoints(total, k) ==> 1 <= x <= k
    ensures forall a, b :: 0 <= a < b < |EmitPoints(total, k)| ==> EmitPoints(total, k)[a] < EmitPoints(total, k)[b]
  {
    if k > 0 {
      EmitPointsIncreasing(total, k - 1);
      var prev := EmitPoints(total, k - 1);
      assert forall a :: 0 <= a < |prev| ==> prev[a] in prev;
    }
  }

  /** The last member always produces the final edit of the loop. */
  lemma LastMemberEmits(total: nat)
    requires total > 0
    ensures |EmitPoints(total, total)| > 0
    ensures EmitPoints(total, total)[|EmitPoints(total, total)| - 1] == total
  {
  }

  /** With at most 100 members the percentage grows strictly with every member. */
  lemma PercentStrictlyIncreasing(i: nat, j: nat, total: nat)
    requires 0 < total <= 100 && i < j
    ensures Percent(i, total) < Percent(j, total)
  {
    var p, q := Percent(i, total), Percent(j, total);
    PercentFloor(i, total);
    PercentFloor(j, total);
    assert (p + 1) * total == p * total + total <= i * 100 + 100 <= j * 100;
    MulCancel(p + 1, q + 1, total);
  }

  lemma MulMonotone(a: int, b: int, c: nat)
    requires a <= b
    ensures a * c <= b * c
  {
  }

  lemma MulCancel(a: int, b: int, c: nat)
    requires a * c < b * c
    ensures a < b
  {
    if a >= b {
      MulMonotone(b, a, c);
    }
  }

  /** A strictly increasing list of multiples of ten within `lo..100` has at most `(100 - lo) / 10 + 1` elements. */
  lemma {:induction false} TenthsBound(s: seq<nat>, lo: nat)
    requires lo % 10 == 0 && lo <= 100
    requires forall k :: 0 <= k < |s| ==> s[k] % 10 == 0 && lo <= s[k] <= 100
    requires forall a, b :: 0 <= a < b < |s| ==> s[a] < s[b]
    ensures |s| <= (100 - lo) / 10 + 1
  {
    if |s| > 1 {
      assert forall k :: 0 <= k < |s[1..]| ==> s[1..][k] == s[k + 1] && s[0] < s[k + 1];
      assert s[0] + 10 <= s[1];
      TenthsBound(s[1..], lo + 10);
    }
  }

  /**
   * With at most 100 members the loop emits at most ten progress edits: each
   * shown percentage is a distinct multiple of ten between 10 and 100.
   */
  lemma AtMostTenEditsUpToHundred(total: nat)
    requires 0 < total <= 100
    ensures |EmitPoints(total, total)| <= 10
  {
    var pts := EmitPoints(total, total);
    EmitPointsMembers(total, total);
    EmitPointsIncreasing(total, total);
    var shown := seq(|pts|, k requires 0 <= k < |pts| => Percent(pts[k], total));
    forall k | 0 <= k < |pts|
      ensures shown[k] % 10 == 0 && 10 <= shown[k] <= 100
    {
      assert pts[k] in pts;
      assert 1 <= pts[k] <= total;
      assert pts[k] * 100 >= total;
      PercentFloor(pts[k], total);
    }
    forall a, b | 0 <= a < b < |pts| ensures shown[a] < shown[b] {
      PercentStrictlyIncreasing(pts[a], pts[b], total);
    }
    TenthsBound(shown, 10);
  }

  /** Members that fail the throttle add no emit point. */
  lemma {:induction false} EmitPointsSkip(total: nat, a: nat, b: nat)
    requires total > 0 && a <= b
    requires forall x :: a < x <= b ==> !ShouldEmit(x, total)
    ensures EmitPoints(total, b) == EmitPoints(total, a)
  {
    if a < b {
      EmitPointsSkip(total, a, b - 1);
    }
  }

  lemma TwentyThreeUpToSix()
    ensures EmitPoints(23, 6) == []
  {
    assert EmitPoints(23, 3) == [];
  }

  lemma TwentyThreeUpToTwelve()
    ensures EmitPoints(23, 12) == [7]
  {
    TwentyThreeUpToSix();
    assert EmitPoints(23, 9) == [7];
  }

  lemma TwentyThreeUpToEighteen()
    ensures EmitPoints(23, 18) == [7, 14]
  {
    TwentyThreeUpToTwelve();
    assert EmitPoints(23, 15) == [7, 14];
  }

  /** Worked example: 23 members are shown at members 7, 14 and 23 (30%, 60%, 100%). */
  lemma TwentyThreeMembers()
    ensures EmitPoints(23, 23) == [7, 14, 23]
  {
    TwentyThreeUpToEighteen();
    assert EmitPoints(23, 21) == [7, 14];
  }

  lemma TwoHundredBlockEnds(t: nat)
    requires t < 10
    ensures ShouldEmit(20 * t + 1, 200) && ShouldEmit(20 * t + 20, 200)
  {
    PercentFloor(20 * t + 1, 200);
    PercentFloor(20 * t + 20, 200);
    assert Percent(20 * t + 1, 200) == 10 * t;
    assert Percent(20 * t + 20, 200) == 10 * t + 10;
  }

  lemma TwoHundredBlockInterior(t: nat)
    requires t < 10
    ensures forall x :: 20 * t + 1 < x <= 20 * t + 19 ==> !ShouldEmit(x, 200)
  {
    forall x | 20 * t + 1 < x <= 20 * t + 19 ensures !ShouldEmit(x, 200) {
      var p := Percent(x, 200);
      PercentFloor(x, 200);
      assert 10 * t + 1 <= p <= 10 * t + 9;
    }
  }

  lemma {:induction false} TwoHundredBlock(t: nat)
    requires t < 10
    ensures EmitPoints(200, 20 * t + 20) == EmitPoints(200, 20 * t) + [20 * t + 1, 20 * t + 20]
  {
    var lo := 20 * t;
    TwoHundredBlockEnds(t);
    TwoHundredBlockInterior(t);
    assert EmitPoints(200, lo + 1) == EmitPoints(200, lo) + [lo + 1];
    EmitPointsSkip(200, lo + 1, lo + 19);
    assert EmitPoints(200, lo + 20) == EmitPoints(200, lo + 19) + [lo + 20];
  }
  lemma {:induction false} TwoHundredPrefix(t: nat)
    requires t <= 10
    ensures |EmitPoints(200, 20 * t)| == 2 * t
  {
    if t > 0 {
      TwoHundredPrefix(t - 1);
      TwoHundredBlock(t - 1);
    }
  }

  /**
   * The throttle does not bound the number of edits by eleven: with 200
   * members it emits twenty (members 1, 20, 21, 40, 41, ..., 181, 200).
   */
  lemma TwoHundredMembersEmitTwenty()
    ensures |EmitPoints(200, 200)| == 20
  {
    TwoHundredPrefix(10);
  }
}
