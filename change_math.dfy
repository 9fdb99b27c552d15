/**
 * Arithmetic shared by the change engines: the worth of a count vector over a column of
 * denomination values, and the unbounded largest-first decomposition used to credit the
 * amount received to the register.
 */
module ChangeMath {

  function Min(a: int, b: int): int
  {
    if a <= b then a else b
  }

  ghost predicate AllPositive(values: seq<int>)
  {
    forall i :: 0 <= i < |values| ==> values[i] > 0
  }

  /** Total, in cents, of `counts[i]` pieces worth `values[i]` each. */
  function Worth(counts: seq<int>, values: seq<int>): int
    requires |counts| == |values|
  {
    if counts == [] then 0 else counts[0] * values[0] + Worth(counts[1..], values[1..])
  }

  function Zeros(n: nat): (z: seq<int>)
    ensures |z| == n && forall i :: 0 <= i < n ==> z[i] == 0
  {
    seq(n, _ => 0)
  }

  lemma {:induction false} WorthZeros(values: seq<int>)
    ensures Worth(Zeros(|values|), values) == 0
  {
    if values != [] {
      assert Zeros(|values|)[1..] == Zeros(|values| - 1);
      WorthZeros(values[1..]);
    }
  }

  /** Setting one count to `x` changes the worth by the difference times that value. */
  lemma {:induction false} WorthUpdate(counts: seq<int>, values: seq<int>, i: nat, x: int)
    requires |counts| == |values| && i < |counts|
    ensures Worth(counts[i := x], values) == Worth(counts, values) + (x - counts[i]) * values[i]
  {
    if i == 0 {
      assert counts[i := x][1..] == counts[1..];
      assert x * values[0] == counts[0] * values[0] + (x - counts[0]) * values[0];
    } else {
      assert counts[i := x][1..] == counts[1..][i - 1 := x];
      WorthUpdate(counts[1..], values[1..], i - 1, x);
    }
  }

  /** The worth of `a - b + c`, position by position, is `Worth(a) - Worth(b) + Worth(c)`. */
  lemma {:induction false} WorthRestock(r: seq<int>, a: seq<int>, b: seq<int>, c: seq<int>, values: seq<int>)
    requires |r| == |a| == |b| == |c| == |values|
    requires forall i :: 0 <= i < |r| ==> r[i] == a[i] - b[i] + c[i]
    ensures Worth(r, values) == Worth(a, values) - Worth(b, values) + Worth(c, values)
  {
    if r != [] {
      WorthRestock(r[1..], a[1..], b[1..], c[1..], values[1..]);
      assert r[0] * values[0] == a[0] * values[0] - b[0] * values[0] + c[0] * values[0];
    }
  }

  /** The count the credit pass adds for one value: `intval($amount / $value)` when `$amount >= $value`. */
  function CreditCount(amount: int, value: int): int
    requires value > 0
  {
    if amount >= value then amount / value else 0
  }

  /** Unbounded largest-first decomposition of `amount` over `values`, in their order. */
  function Decompose(amount: int, values: seq<int>): (counts: seq<int>)
    requires AllPositive(values)
    ensures |counts| == |values|
  {
    if values == [] then []
    else
      var c := CreditCount(amount, values[0]);
      [c] + Decompose(amount - c * values[0], values[1..])
  }

  /** What `Decompose` leaves undistributed. */
  function Leftover(amount: int, values: seq<int>): int
    requires AllPositive(values)
  {
    if values == [] then amount
    else
      var c := CreditCount(amount, values[0]);
      Leftover(amount - c * values[0], values[1..])
  }

  /** The decomposition and what it leaves add up to the amount. */
  lemma {:induction false} DecomposeConserves(amount: int, values: seq<int>)
    requires AllPositive(values)
    ensures Worth(Decompose(amount, values), values) + Leftover(amount, values) == amount
  {
    if values != [] {
      var c := CreditCount(amount, values[0]);
      DecomposeConserves(amount - c * values[0], values[1..]);
      assert Decompose(amount, values)[1..] == Decompose(amount - c * values[0], values[1..]);
    }
  }

  /** From a non-negative amount every count is non-negative and less than the smallest value is left. */
  lemma {:induction false} DecomposeBounds(amount: int, values: seq<int>)
    requires AllPositive(values) && values != [] && amount >= 0
    ensures 0 <= Leftover(amount, values) < values[|values| - 1]
    ensures forall i :: 0 <= i < |values| ==> Decompose(amount, values)[i] >= 0
  {
    var c := CreditCount(amount, values[0]);
    var rest := amount - c * values[0];
    assert 0 <= rest < values[0] by {
      if amount >= values[0] {
        assert rest == amount % values[0];
      }
    }
    if |values| > 1 {
      DecomposeBounds(rest, values[1..]);
      forall i | 1 <= i < |values| ensures Decompose(amount, values)[i] >= 0 {
        assert Decompose(amount, values)[i] == Decompose(rest, values[1..])[i - 1];
      }
    }
  }

  /** When the smallest value is 1, the decomposition of a non-negative amount is exact. */
  lemma {:induction false} DecomposeExact(amount: int, values: seq<int>)
    requires AllPositive(values) && values != [] && values[|values| - 1] == 1 && amount >= 0
    ensures Worth(Decompose(amount, values), values) == amount
    ensures forall i :: 0 <= i < |values| ==> Decompose(amount, values)[i] >= 0
  {
    DecomposeConserves(amount, values);
    DecomposeBounds(amount, values);
  }
}
