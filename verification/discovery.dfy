/** `find_total_posts`: how many posts a channel holds, found by probing
    addresses, since the page service has no count operation. The probe
    (`valid` in core.py) is a parameter here; `Store.PostProbe` is the
    instance that asks the page store. */
module Discovery {

  /** The first index probed after index 1. */
  const Guess := 16

  function Pow2(k: nat): (p: nat)
    ensures p >= 1
  {
    if k == 0 then 1 else 2 * Pow2(k - 1)
  }

  /** Floor of the base-2 logarithm. */
  function Log2(n: nat): nat
    requires n >= 1
  {
    if n == 1 then 0 else 1 + Log2(n / 2)
  }

  lemma {:induction false} Log2Bound(e: nat, n: nat)
    requires n >= 1 && Pow2(e) <= n
    ensures e <= Log2(n)
    decreases e
  {
    if e > 0 {
      Log2Bound(e - 1, n / 2);
    }
  }

  /** Posts are numbered 1..n without gaps: the probe holds exactly there. */
  ghost predicate Dense(valid: int -> bool, n: nat) {
    forall i :: i >= 1 ==> (valid(i) <==> i <= n)
  }

  /** No index from `bound` on is valid: the store holds finitely many posts. */
  ghost predicate FinitelyValid(valid: int -> bool, bound: int) {
    forall i :: i >= bound ==> !valid(i)
  }

  /** `total` is a place where the probe switches from true to false: either
      index 1 already fails and `total` is 0, or `total` passes and
      `total + 1` fails. */
  ghost predicate IsCount(valid: int -> bool, total: int) {
    || (total == 0 && !valid(1))
    || (total >= 1 && valid(total) && !valid(total + 1))
  }

  /** On densely numbered posts the switch point is the number of posts. */
  lemma DenseCount(valid: int -> bool, n: nat, total: int)
    requires Dense(valid, n) && IsCount(valid, total)
    ensures total == n
  {
  }

  /** Exponential search from the guess 16, then binary search over a
      half-open window. `probes` lists the indices handed to `valid`, in
      order. For any probe the result is a switch point; on densely numbered
      posts it is their number; and the number of probes is logarithmic in
      the result. */
  method FindTotalPosts(valid: int -> bool) returns (total: int, probes: seq<int>)
    requires exists bound :: FinitelyValid(valid, bound)
    ensures IsCount(valid, total)
    ensures forall n: nat :: Dense(valid, n) ==> total == n
    ensures |probes| >= 1 && probes[0] == 1
    ensures forall k :: 0 <= k < |probes| ==> probes[k] >= 1
    ensures !valid(1) ==> total == 0 && probes == [1]
    ensures total >= 1 ==> |probes| <= 2 * Log2(total) + 6
  {
    probes := [1];
    if !valid(1) {
      return 0, probes;
    }
    var left, right;
    ghost var budget: nat;
    ghost var e: nat;
    probes := probes + [Guess];
    if valid(Guess) {
      ghost var bound :| FinitelyValid(valid, bound);
      ghost var d: nat := 0;
      var low, high := Guess, Guess * 2;
      assert Pow2(4) == Guess;
      probes := probes + [high];
      var more := valid(high);
      while more
        invariant low == Pow2(4 + d) && high == 2 * low
        invariant valid(low)
        invariant more == valid(high)
        invariant |probes| == 3 + d
        invariant probes[0] == 1
        invariant forall k :: 0 <= k < |probes| ==> probes[k] >= 1
        decreases bound - low
      {
        low, high := high, high * 2;
        d := d + 1;
        probes := probes + [high];
        more := valid(high);
      }
      left, right := low + 1, high;
      budget, e := 4 + d, 4 + d;
    } else {
      left, right := 2, Guess;
      budget, e := 4, 0;
      assert Pow2(4) == Guess;
    }
    while left < right
      invariant 2 <= left <= right
      invariant valid(left - 1) && !valid(right)
      invariant right - left < Pow2(budget)
      invariant Pow2(e) <= left - 1
      invariant |probes| + budget <= 2 * e + 6
      invariant |probes| >= 1 && probes[0] == 1
      invariant forall k :: 0 <= k < |probes| ==> probes[k] >= 1
      decreases right - left
    {
      var mid := (left + right) / 2;
      probes := probes + [mid];
      if valid(mid) {
        left := mid + 1;
      } else {
        right := mid;
      }
      budget := budget - 1;
    }
    total := left - 1;
    Log2Bound(e, total);
    forall n: nat | Dense(valid, n)
      ensures total == n
    {
      DenseCount(valid, n, total);
    }
  }
}
