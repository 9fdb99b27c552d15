/**
 * What the legacy scripts guarantee: each count is capped by the stock, the amount to return is
 * conserved, and, over any values table without an empty key, the legacy computation gives the
 * same change, errors, flag and new register as `calculateChange` with the standard order and
 * no preference.
 */
module LegacyProperties {
  import opened Assoc
  import opened ChangeMath
  import opened CashRegister
  import opened ChangeProperties
  import opened LegacyCaisse

  /**
   * The legacy pass keeps every count within the stock, conserves the amount (worth of the change
   * plus what is left), and from a non-negative amount leaves between 0 and that amount.
   */
  lemma {:induction false} LegacyGreedyFacts(cents: seq<int>, stock: seq<int>, remaining: int)
    requires |stock| == |cents| && AllPositive(cents)
    ensures var r := LegacyGreedy(cents, stock, remaining);
      && Capped(r.0, stock)
      && Worth(r.0, cents) + r.1 == remaining
      && (remaining >= 0 ==> 0 <= r.1 <= remaining)
  {
    LegacyFromCapped(cents, stock, 0, remaining);
    assert stock[0..] == stock;
    LegacyFromConserves(cents, stock, 0, remaining);
    LegacyFromRemaining(cents, stock, 0, remaining);
    assert cents[0..] == cents;
  }

  /** The count taken at one position is between 0 and the stock and worth at most the amount. */
  lemma {:induction false} LegacyCountFacts(v: int, available: int, remaining: int)
    requires v > 0
    ensures var c := LegacyCount(v, available, remaining);
      && 0 <= c && (c > 0 ==> c <= available)
      && (remaining >= 0 ==> 0 <= remaining - c * v <= remaining)
  {
    if remaining >= v && available > 0 {
      var q := remaining / v;
      assert q * v <= remaining && q >= 1;
      assert Min(q, available) * v <= q * v;
    }
  }

  /** From position `i` on, every legacy count is between 0 and the stock at its position. */
  lemma {:induction false} LegacyFromCapped(cents: seq<int>, stock: seq<int>, i: nat, remaining: int)
    requires |stock| == |cents| && AllPositive(cents) && i <= |cents|
    ensures Capped(LegacyFrom(cents, stock, i, remaining).0, stock[i..])
    decreases |cents| - i
  {
    if i < |cents| {
      var c := LegacyCount(cents[i], stock[i], remaining);
      LegacyCountFacts(cents[i], stock[i], remaining);
      LegacyFromCapped(cents, stock, i + 1, remaining - c * cents[i]);
      var rest := LegacyFrom(cents, stock, i + 1, remaining - c * cents[i]);
      assert stock[i..][1..] == stock[i + 1..];
      CappedCons(c, rest.0, stock[i..]);
    }
  }

  /** A count within the first stock, followed by counts capped by the rest of the stock. */
  lemma {:induction false} CappedCons(c: int, rest: seq<int>, stock: seq<int>)
    requires stock != [] && 0 <= c && (c > 0 ==> c <= stock[0])
    requires Capped(rest, stock[1..])
    ensures Capped([c] + rest, stock)
  {
    var counts := [c] + rest;
    forall k | 1 <= k < |counts| ensures 0 <= counts[k] && (counts[k] > 0 ==> counts[k] <= stock[k]) {
      assert counts[k] == rest[k - 1] && stock[k] == stock[1..][k - 1];
    }
  }

  /** From position `i` on, the worth of the legacy counts plus what is left is the amount. */
  lemma {:induction false} LegacyFromConserves(cents: seq<int>, stock: seq<int>, i: nat, remaining: int)
    requires |stock| == |cents| && AllPositive(cents) && i <= |cents|
    ensures var r := LegacyFrom(cents, stock, i, remaining);
      Worth(r.0, cents[i..]) + r.1 == remaining
    decreases |cents| - i
  {
    if i < |cents| {
      var c := LegacyCount(cents[i], stock[i], remaining);
      LegacyFromConserves(cents, stock, i + 1, remaining - c * cents[i]);
      var rest := LegacyFrom(cents, stock, i + 1, remaining - c * cents[i]);
      WorthCons(c, rest.0, cents, i);
    }
  }

  /** The worth of a count followed by more counts, over the values from position `i`. */
  lemma {:induction false} WorthCons(c: int, rest: seq<int>, cents: seq<int>, i: nat)
    requires i < |cents| && |rest| == |cents| - i - 1
    ensures Worth([c] + rest, cents[i..]) == c * cents[i] + Worth(rest, cents[i + 1..])
  {
    assert ([c] + rest)[1..] == rest && cents[i..][1..] == cents[i + 1..];
  }

  /** From a non-negative amount, what the legacy pass leaves stays between 0 and that amount. */
  lemma {:induction false} LegacyFromRemaining(cents: seq<int>, stock: seq<int>, i: nat, remaining: int)
    requires |stock| == |cents| && AllPositive(cents) && i <= |cents|
    ensures var r := LegacyFrom(cents, stock, i, remaining);
      remaining >= 0 ==> 0 <= r.1 <= remaining
    decreases |cents| - i
  {
    if i < |cents| {
      var c := LegacyCount(cents[i], stock[i], remaining);
      LegacyCountFacts(cents[i], stock[i], remaining);
      LegacyFromRemaining(cents, stock, i + 1, remaining - c * cents[i]);
    }
  }

  /**
   * From position `k` on, the engine's greedy pass in table order with no preference computes
   * what the legacy pass computes from `k`.
   */
  lemma {:induction false} GreedyPassIsLegacy(values: Entries<int>, k: nat, order: seq<nat>, stock: seq<int>,
                                               change: seq<int>, remaining: int)
    requires ValidValues(values) && |stock| == |values| && |change| == |values| && k <= |values|
    requires "" !in KeysOf(values)
    requires |order| == |values| - k && forall j :: 0 <= j < |order| ==> order[j] == k + j
    requires forall j :: k <= j < |values| ==> change[j] == 0
    ensures var g := GreedyPass(values, order, stock, "", change, remaining);
      var l := LegacyFrom(ValuesOf(values), stock, k, remaining);
      g.0 == change[..k] + l.0 && g.1 == l.1
  {
    GreedyLegacyCounts(values, k, order, stock, change, remaining);
    GreedyLegacyRemainder(values, k, order, stock, change, remaining);
  }

  /** The counts half of GreedyPassIsLegacy. */
  lemma {:induction false} GreedyLegacyCounts(values: Entries<int>, k: nat, order: seq<nat>, stock: seq<int>,
                                               change: seq<int>, remaining: int)
    requires ValidValues(values) && |stock| == |values| && |change| == |values| && k <= |values|
    requires "" !in KeysOf(values)
    requires |order| == |values| - k && forall j :: 0 <= j < |order| ==> order[j] == k + j
    requires forall j :: k <= j < |values| ==> change[j] == 0
    ensures GreedyPass(values, order, stock, "", change, remaining).0
         == change[..k] + LegacyFrom(ValuesOf(values), stock, k, remaining).0
    decreases |values| - k
  {
    if k == |values| {
      assert change[..k] == change;
    } else {
      var c := LegacyCount(values[k].1, stock[k], remaining);
      var left := remaining - c * values[k].1;
      var next := change[k := c];
      GreedyStepAt(values, k, order, stock, change, remaining);
      ZeroTail(change, k, c, next);
      GreedyLegacyCounts(values, k + 1, order[1..], stock, next, left);
      CountsStep(values, k, order, stock, change, remaining, c, left, next);
    }
  }

  /** The counts half for position `k`, given it for position `k + 1`. */
  lemma {:induction false} CountsStep(values: Entries<int>, k: nat, order: seq<nat>, stock: seq<int>,
                                       change: seq<int>, remaining: int, c: int, left: int, next: seq<int>)
    requires ValidValues(values) && |stock| == |values| && |change| == |values| && k < |values|
    requires "" !in KeysOf(values)
    requires |order| == |values| - k && forall j :: 0 <= j < |order| ==> order[j] == k + j
    requires change[k] == 0
    requires c == LegacyCount(values[k].1, stock[k], remaining) && left == remaining - c * values[k].1
    requires next == change[k := c]
    requires GreedyPass(values, order[1..], stock, "", next, left).0
      == next[..k + 1] + LegacyFrom(ValuesOf(values), stock, k + 1, left).0
    ensures GreedyPass(values, order, stock, "", change, remaining).0
         == change[..k] + LegacyFrom(ValuesOf(values), stock, k, remaining).0
  {
    var cents := ValuesOf(values);
    var rest := LegacyFrom(cents, stock, k + 1, left);
    GreedyStepAt(values, k, order, stock, change, remaining);
    assert LegacyFrom(cents, stock, k, remaining).0 == [c] + rest.0 by {
      LegacyFromStep(cents, stock, k, remaining);
    }
    PrefixUpdate(change, k, c, rest.0);
  }

  /** Setting position `k` keeps every later position at zero. */
  lemma {:induction false} ZeroTail(change: seq<int>, k: nat, c: int, next: seq<int>)
    requires k < |change| && forall j :: k <= j < |change| ==> change[j] == 0
    requires next == change[k := c]
    ensures forall j :: k + 1 <= j < |next| ==> next[j] == 0
  {
  }

  /** Setting position `k` and cutting after it appends the new value to the old prefix. */
  lemma {:induction false} PrefixUpdate(change: seq<int>, k: nat, c: int, tail: seq<int>)
    requires k < |change|
    ensures change[k := c][..k + 1] + tail == change[..k] + ([c] + tail)
  {
    assert change[k := c][..k + 1] == change[..k] + [c];
  }

  /** The remainder half of GreedyPassIsLegacy. */
  lemma {:induction false} GreedyLegacyRemainder(values: Entries<int>, k: nat, order: seq<nat>, stock: seq<int>,
                                                  change: seq<int>, remaining: int)
    requires ValidValues(values) && |stock| == |values| && |change| == |values| && k <= |values|
    requires "" !in KeysOf(values)
    requires |order| == |values| - k && forall j :: 0 <= j < |order| ==> order[j] == k + j
    requires forall j :: k <= j < |values| ==> change[j] == 0
    ensures GreedyPass(values, order, stock, "", change, remaining).1
         == LegacyFrom(ValuesOf(values), stock, k, remaining).1
    decreases |values| - k
  {
    if k < |values| {
      var v := values[k].1;
      var c := LegacyCount(v, stock[k], remaining);
      var next := change[k := c];
      GreedyStepAt(values, k, order, stock, change, remaining);
      ZeroTail(change, k, c, next);
      GreedyLegacyRemainder(values, k + 1, order[1..], stock, next, remaining - c * v);
      RemainderStep(values, k, order, stock, change, remaining, c, remaining - c * v, next);
    }
  }

  /** The remainder half for position `k`, given it for position `k + 1`. */
  lemma {:induction false} RemainderStep(values: Entries<int>, k: nat, order: seq<nat>, stock: seq<int>,
                                          change: seq<int>, remaining: int, c: int, left: int, next: seq<int>)
    requires ValidValues(values) && |stock| == |values| && |change| == |values| && k < |values|
    requires "" !in KeysOf(values)
    requires |order| == |values| - k && forall j :: 0 <= j < |order| ==> order[j] == k + j
    requires change[k] == 0
    requires c == LegacyCount(values[k].1, stock[k], remaining) && left == remaining - c * values[k].1
    requires next == change[k := c]
    requires GreedyPass(values, order[1..], stock, "", next, left).1
      == LegacyFrom(ValuesOf(values), stock, k + 1, left).1
    ensures GreedyPass(values, order, stock, "", change, remaining).1
         == LegacyFrom(ValuesOf(values), stock, k, remaining).1
  {
    GreedyStepAt(values, k, order, stock, change, remaining);
    LegacyFromStep(ValuesOf(values), stock, k, remaining);
  }

  /**
   * One step of the greedy pass with no preference, at a position whose key is not empty: the
   * count there becomes min(floor(remaining/value), stock) when the amount reaches the value and
   * the stock is positive, and the pass goes on with the rest of the order.
   */
  lemma {:induction false} GreedyStepAt(values: Entries<int>, k: nat, order: seq<nat>, stock: seq<int>,
                                         change: seq<int>, remaining: int)
    requires ValidValues(values) && |stock| == |values| && |change| == |values| && k < |values|
    requires "" !in KeysOf(values)
    requires |order| == |values| - k && forall j :: 0 <= j < |order| ==> order[j] == k + j
    requires change[k] == 0
    ensures forall j :: 0 <= j < |order[1..]| ==> order[1..][j] == k + 1 + j
    ensures var v := values[k].1;
      var c := LegacyCount(v, stock[k], remaining);
      var g := GreedyPass(values, order, stock, "", change, remaining);
      var h := GreedyPass(values, order[1..], stock, "", change[k := c], remaining - c * v);
      g.0 == h.0 && g.1 == h.1
  {
    assert order[0] == k && KeysOf(values)[k] == values[k].0;
    var v := values[k].1;
    var c := LegacyCount(v, stock[k], remaining);
    if c == 0 {
      assert change[k := c] == change;
    }
    assert Take(values, k, stock, change, remaining) == (change[k := c], remaining - c * v);
  }

  /** The legacy pass is the engine's two passes with the standard order and no preference. */
  lemma {:induction false} PassesAreLegacy(values: Entries<int>, dueCents: int, givenCents: int, form: Entries<int>)
    requires ValidValues(values) && "" !in KeysOf(values)
    ensures Passes(values, dueCents, givenCents, form, "greedy", "")
         == LegacyGreedy(ValuesOf(values), Stock(values, form), givenCents - dueCents)
  {
    var stock := Stock(values, form);
    var a := givenCents - dueCents;
    var zeros := Zeros(|values|);
    assert PreferredPass(values, stock, "", zeros, a) == (zeros, a);
    var order := Order("greedy", |values|);
    assert forall j :: 0 <= j < |order| ==> order[j] == 0 + j;
    GreedyPassIsLegacy(values, 0, order, stock, zeros, a);
    assert ValuesOf(values)[0..] == ValuesOf(values) && stock[0..] == stock;
    var l := LegacyGreedy(ValuesOf(values), stock, a);
    assert zeros[..0] + l.0 == l.0;
  }

  /**
   * The legacy scripts and `calculateChange(..., 'greedy', null)` agree on the change, the
   * errors, the `impossible` flag and the new register, over any table without an empty key.
   */
  lemma {:induction false} LegacyAgreesWithEngine(values: Entries<int>, dueCents: int, givenCents: int, form: Entries<int>)
    requires ValidValues(values) && "" !in KeysOf(values)
    ensures var l := LegacySpec(values, dueCents, givenCents, form);
      var r := Spec(values, dueCents, givenCents, form, "greedy", "");
      l.change == r.changeToReturn && l.errors == r.errors && l.impossible == r.impossible
      && l.newRegister == r.newRegister
  {
    PassesAreLegacy(values, dueCents, givenCents, form);
  }

  /**
   * The legacy result: an error for a due amount <= 0 and for given < due, conservation of the
   * amount, `impossible` exactly when something is missing, and every count within the stock.
   */
  lemma {:induction false} LegacyChangeFacts(values: Entries<int>, dueCents: int, givenCents: int, form: Entries<int>)
    requires ValidValues(values) && "" !in KeysOf(values)
    ensures var l := LegacySpec(values, dueCents, givenCents, form);
      var pass := LegacyGreedy(ValuesOf(values), Stock(values, form), givenCents - dueCents);
      && (DueNotPositive in l.errors <==> dueCents <= 0)
      && (GivenInsufficient(givenCents, dueCents) in l.errors <==> givenCents < dueCents)
      && Worth(l.change, ValuesOf(values)) + pass.1 == givenCents - dueCents
      && (l.impossible <==> pass.1 > 0)
      && Capped(l.change, Stock(values, form))
  {
    LegacyAgreesWithEngine(values, dueCents, givenCents, form);
    PassesAreLegacy(values, dueCents, givenCents, form);
    SpecConserves(values, dueCents, givenCents, form, "greedy", "");
    SpecCapped(values, dueCents, givenCents, form, "greedy", "");
  }

  /**
   * The legacy new register exists exactly when there is no error; it is then current - change +
   * credit for every key and, when the smallest value is 1 cent (as in app/config/monnaie.php),
   * its worth is the old worth plus the due amount.
   */
  lemma {:induction false} LegacyNewRegister(values: Entries<int>, dueCents: int, givenCents: int, form: Entries<int>)
    requires ValidValues(values) && "" !in KeysOf(values) && |values| > 0 && values[|values| - 1].1 == 1
    ensures var l := LegacySpec(values, dueCents, givenCents, form);
      var stock := Stock(values, form);
      && (l.newRegister != [] <==> l.errors == [])
      && (l.errors == [] ==>
            (forall i :: 0 <= i < |values| ==>
               l.newRegister[i] == stock[i] - l.change[i] + Credit(values, givenCents)[i])
            && Worth(l.newRegister, ValuesOf(values)) == Worth(stock, ValuesOf(values)) + dueCents)
  {
    LegacyAgreesWithEngine(values, dueCents, givenCents, form);
    SpecNewRegister(values, dueCents, givenCents, form, "greedy", "");
  }
}
