/** The reconnect loop's capped exponential backoff, in int64 nanoseconds (Run in sdk-go/vconn/client.go). */
module Backoff {
  import opened Prelude

  const TWO_62 := 0x4000_0000_0000_0000
  const TWO_63 := 0x8000_0000_0000_0000
  const TWO_64 := 0x1_0000_0000_0000_0000

  predicate Int64(x: int) {
    -TWO_63 <= x < TWO_63
  }

  /** Two's-complement wrap-around. */
  function Wrap(x: int): int {
    (x + TWO_63) % TWO_64 - TWO_63
  }

  function Doubled(backoff: int, max: int): int {
    var d := Wrap(backoff * 2);
    if d > max then max else d
  }

  /** The variable `backoff` after a history of outcomes; true means the attempt connected. */
  function After(base: int, max: int, outcomes: seq<bool>): int {
    if outcomes == [] then base
    else
      var n := |outcomes| - 1;
      if outcomes[n] then base else Doubled(After(base, max, outcomes[..n]), max)
  }

  /** The wait that follows attempt `i`. */
  function WaitAt(base: int, max: int, outcomes: seq<bool>, i: nat): int
    requires i < |outcomes|
  {
    if outcomes[i] then base else After(base, max, outcomes[..i])
  }

  /** The loop, up to a cancellation of its context after the given outcomes. */
  method Run(base: int, max: int, outcomes: seq<bool>) returns (waits: seq<int>)
    ensures |waits| == |outcomes|
    ensures forall i :: 0 <= i < |waits| ==> waits[i] == WaitAt(base, max, outcomes, i)
  {
    var backoff := base;
    waits := [];
    for i := 0 to |outcomes|
      invariant backoff == After(base, max, outcomes[..i])
      invariant |waits| == i && forall k :: 0 <= k < i ==> waits[k] == WaitAt(base, max, outcomes, k)
    {
      var everConnected := outcomes[i];
      assert outcomes[..i + 1][..i] == outcomes[..i];
      if everConnected {
        backoff := base;
      }
      waits := waits + [backoff];
      if !everConnected {
        backoff := Wrap(backoff * 2);
        if backoff > max {
          backoff := max;
        }
      }
    }
  }

  // ---- closed form ----------------------------------------------------------

  function Pow2(n: nat): nat {
    if n == 0 then 1 else 2 * Pow2(n - 1)
  }

  /** How many consecutive failures end the history. */
  function Streak(outcomes: seq<bool>): nat {
    if outcomes == [] || outcomes[|outcomes| - 1] then 0 else 1 + Streak(outcomes[..|outcomes| - 1])
  }

  /** The unclamped exponential meets the cap and stays there. */
  lemma DoublingMin(x: nat, max: nat)
    ensures Min(2 * Min(x, max), max) == Min(2 * x, max)
  {
  }

  lemma DoubledPower(base: nat, p: nat)
    ensures base * p >= 0 && base * (2 * p) == 2 * (base * p)
  {
  }

  /** The wait the closed form promises after the j-th consecutive failure; the first one is never clamped. */
  function ClosedForm(base: int, max: int, j: nat): int {
    if j <= 1 then base else Min(base * Pow2(j - 1), max)
  }

  lemma PowersAreTwo()
    ensures Pow2(0) == 1 && Pow2(1) == 2
  {
    assert Pow2(1) == 2 * Pow2(0);
  }

  lemma {:induction false} PowerPositive(j: nat)
    ensures Pow2(j) > 0
  {
    if j > 0 {
      PowerPositive(j - 1);
    }
  }

  lemma ProductPositive(a: int, b: int)
    requires a > 0 && b > 0
    ensures a * b > 0
  {
  }

  lemma AfterIsPositive(base: int, max: int, j: nat)
    requires 0 < base && 0 < max
    ensures 0 < Min(base * Pow2(j), max)
  {
    PowerPositive(j);
    ProductPositive(base, Pow2(j));
  }

  /** While nothing wraps, `backoff` is the base delay after no failure and the clamped exponential after some. */
  lemma {:induction false} AfterIs(base: int, max: int, outcomes: seq<bool>)
    requires 0 < base < TWO_62 && 0 < max < TWO_62
    ensures var j := Streak(outcomes);
            After(base, max, outcomes) == (if j == 0 then base else Min(base * Pow2(j), max))
    ensures 0 < After(base, max, outcomes) < TWO_62
  {
    if outcomes != [] && !outcomes[|outcomes| - 1] {
      var before := outcomes[..|outcomes| - 1];
      AfterIs(base, max, before);
      var b := After(base, max, before);
      assert Wrap(b * 2) == b * 2;
      DoubledPower(base, Pow2(Streak(before)));
      DoublingMin(base * Pow2(Streak(before)), max);
      PowersAreTwo();
    }
    AfterIsPositive(base, max, Streak(outcomes));
  }

  /** Every wait of every history follows the closed form. */
  ghost predicate FollowsClosedForm(base: int, max: int) {
    forall outcomes, i: nat :: i < |outcomes| ==>
      WaitAt(base, max, outcomes, i) == ClosedForm(base, max, Streak(outcomes[..i + 1]))
  }

  lemma ClosedFormHolds(base: int, max: int, outcomes: seq<bool>, i: nat)
    requires 0 < base < TWO_62 && 0 < max < TWO_62 && i < |outcomes|
    ensures WaitAt(base, max, outcomes, i) == ClosedForm(base, max, Streak(outcomes[..i + 1]))
  {
    AfterIs(base, max, outcomes[..i]);
    assert outcomes[..i + 1][..i] == outcomes[..i];
  }

  lemma ClosedFormPositive(base: int, max: int, j: nat)
    requires 0 < base && 0 < max
    ensures 0 < ClosedForm(base, max, j)
  {
    if j > 1 {
      AfterIsPositive(base, max, j - 1);
    }
  }

  /** Failures enough to double past the top, when either delay is 2^62 or more. */
  lemma FailUntilLarge(base: int, max: int) returns (outcomes: seq<bool>)
    requires 0 < base < TWO_63 && 0 < max < TWO_63 && (TWO_62 <= base || TWO_62 <= max)
    ensures TWO_62 <= After(base, max, outcomes) < TWO_63
  {
    outcomes := [];
    while After(base, max, outcomes) < TWO_62
      invariant 0 < After(base, max, outcomes) < TWO_63
      invariant After(base, max, outcomes) < TWO_62 ==> TWO_62 <= max
      decreases TWO_63 - After(base, max, outcomes)
    {
      var b := After(base, max, outcomes);
      assert (outcomes + [false])[..|outcomes|] == outcomes;
      assert Wrap(b * 2) == b * 2;
      outcomes := outcomes + [false];
    }
  }

  /**
   * The wait after the j-th consecutive failure is base for j <= 1 and min(base * 2^(j-1), max)
   * after that, over every history, exactly when both delays are below 2^62 ns.
   */
  lemma WaitClosedForm(base: int, max: int)
    requires 0 < base < TWO_63 && 0 < max < TWO_63
    ensures FollowsClosedForm(base, max) <==> base < TWO_62 && max < TWO_62
    ensures base <= max ==> forall j: nat :: j > 0 ==> ClosedForm(base, max, j) == Min(base * Pow2(j - 1), max)
  {
    PowersAreTwo();
    if base < TWO_62 && max < TWO_62 {
      forall outcomes, i: nat | i < |outcomes|
        ensures WaitAt(base, max, outcomes, i) == ClosedForm(base, max, Streak(outcomes[..i + 1]))
      {
        ClosedFormHolds(base, max, outcomes, i);
      }
    } else {
      var outcomes := FailUntilLarge(base, max);
      var longer := outcomes + [false, false];
      var i := |outcomes| + 1;
      assert longer[..i] == outcomes + [false] && (outcomes + [false])[..|outcomes|] == outcomes;
      assert WaitAt(base, max, longer, i) < 0;
      ClosedFormPositive(base, max, Streak(longer[..i + 1]));
    }
  }

  // ---- where it stops being true --------------------------------------------

  /** No doubling the loop can ever perform leaves int64. */
  ghost predicate NeverOverflows(base: int, max: int) {
    forall outcomes :: Int64(2 * After(base, max, outcomes))
  }

  /** The arithmetic stays inside int64 over every history exactly when both delays are below 2^62 ns. */
  lemma OverflowExactly(base: int, max: int)
    requires 0 < base < TWO_63 && 0 < max < TWO_63
    ensures NeverOverflows(base, max) <==> base < TWO_62 && max < TWO_62
  {
    if base < TWO_62 && max < TWO_62 {
      forall outcomes ensures Int64(2 * After(base, max, outcomes)) {
        AfterIs(base, max, outcomes);
      }
    } else {
      var outcomes := FailUntilLarge(base, max);
      assert !Int64(2 * After(base, max, outcomes));
    }
  }

  lemma AfterCapped(base: int, max: int, outcomes: seq<bool>)
    requires base <= max
    ensures After(base, max, outcomes) <= max
  {
  }

  /** Every wait respects the cap exactly when the base delay does: the first wait is never clamped. */
  lemma CapHonouredExactly(base: int, max: int)
    ensures (forall outcomes, i: nat :: i < |outcomes| ==> WaitAt(base, max, outcomes, i) <= max) <==> base <= max
  {
    if base <= max {
      forall outcomes, i: nat | i < |outcomes| ensures WaitAt(base, max, outcomes, i) <= max {
        AfterCapped(base, max, outcomes[..i]);
      }
    } else {
      var one := [false];
      assert one[..0] == [];
      assert WaitAt(base, max, one, 0) == base;
    }
  }
}
