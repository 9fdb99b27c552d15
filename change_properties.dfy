/**
 * What `calculateChange` guarantees, proved about the functions of module CashRegister: each
 * step's bounds, the frame of the greedy pass, conservation of the amount to return, the cap by
 * the stock, the new register and its total, and the behaviour of the `algorithm` and
 * `preferredValue` arguments.
 */
module ChangeProperties {
  import opened Wrappers
  import opened Assoc
  import opened ChangeMath
  import opened CashRegister
  import Currency

  /** Every position is visited at most once. */
  ghost predicate Distinct(order: seq<nat>)
  {
    forall j, k :: 0 <= j < k < |order| ==> order[j] != order[k]
  }

  /** Every count is non-negative, and a positive count does not exceed the stock it came from. */
  ghost predicate Capped(change: seq<int>, stock: seq<int>)
  {
    |change| == |stock|
    && forall i :: 0 <= i < |change| ==> 0 <= change[i] && (change[i] > 0 ==> change[i] <= stock[i])
  }

  /**
   * One use of a denomination changes only its own count. When it fires it takes `c` pieces with
   * `1 <= c <= stock` and `c * value <= remaining`, and as many as fit: either the whole stock or
   * until less than one more piece is due. From a non-negative remainder the remainder stays in
   * `0 .. remaining`; from a negative one nothing is taken.
   */
  lemma {:induction false} TakeFacts(values: Entries<int>, i: nat, stock: seq<int>, change: seq<int>, remaining: int)
    requires ValidValues(values) && |stock| == |values| && |change| == |values| && i < |values|
    ensures var r := Take(values, i, stock, change, remaining);
      && r.0 == change[i := r.0[i]]
      && (r == (change, remaining)
          || (1 <= r.0[i] <= stock[i] && r.0[i] * values[i].1 <= remaining
              && r.1 == remaining - r.0[i] * values[i].1
              && (r.0[i] == stock[i] || r.1 < values[i].1)))
      && (remaining >= 0 ==> 0 <= r.1 <= remaining)
      && (remaining < values[i].1 || stock[i] <= 0 ==> r == (change, remaining))
  {
    var v := values[i].1;
    if remaining >= v && stock[i] > 0 {
      var q := remaining / v;
      assert q * v <= remaining < q * v + v;
      assert q >= 1;
      var c := Min(q, stock[i]);
      assert c * v <= q * v;
    }
  }

  /** With the count at `i` still 0, a use of that denomination keeps count worth plus remainder. */
  lemma {:induction false} TakeConserves(values: Entries<int>, i: nat, stock: seq<int>, change: seq<int>, remaining: int)
    requires ValidValues(values) && |stock| == |values| && |change| == |values| && i < |values|
    requires change[i] == 0
    ensures var r := Take(values, i, stock, change, remaining);
      Worth(r.0, ValuesOf(values)) + r.1 == Worth(change, ValuesOf(values)) + remaining
  {
    var v := values[i].1;
    if remaining >= v && stock[i] > 0 {
      var c := Min(remaining / v, stock[i]);
      var cents := ValuesOf(values);
      WorthUpdate(change, cents, i, c);
      assert cents[i] == v;
      assert Worth(change[i := c], cents) == Worth(change, cents) + c * v;
    }
  }

  /** The greedy pass touches only the positions it visits, and never the preferred key. */
  lemma {:induction false} GreedyFrame(values: Entries<int>, order: seq<nat>, stock: seq<int>, preferred: string,
                                        change: seq<int>, remaining: int, i: nat)
    requires ValidValues(values) && |stock| == |values| && |change| == |values|
    requires forall j :: 0 <= j < |order| ==> order[j] < |values|
    requires i < |values|
    requires values[i].0 == preferred || forall j :: 0 <= j < |order| ==> order[j] != i
    ensures GreedyPass(values, order, stock, preferred, change, remaining).0[i] == change[i]
    decreases |order|
  {
    if order != [] {
      if values[order[0]].0 == preferred {
        GreedyFrame(values, order[1..], stock, preferred, change, remaining, i);
      } else {
        var next := Take(values, order[0], stock, change, remaining);
        TakeFacts(values, order[0], stock, change, remaining);
        assert order[0] != i;
        GreedyFrame(values, order[1..], stock, preferred, next.0, next.1, i);
      }
    }
  }

  /**
   * From a non-negative amount the greedy pass leaves a remainder between 0 and that amount;
   * from a negative amount (given < due) it takes nothing at all.
   */
  lemma {:induction false} GreedyRemaining(values: Entries<int>, order: seq<nat>, stock: seq<int>, preferred: string,
                                            change: seq<int>, remaining: int)
    requires ValidValues(values) && |stock| == |values| && |change| == |values|
    requires forall j :: 0 <= j < |order| ==> order[j] < |values|
    ensures var r := GreedyPass(values, order, stock, preferred, change, remaining);
      (remaining >= 0 ==> 0 <= r.1 <= remaining) && (remaining < 0 ==> r == (change, remaining))
    decreases |order|
  {
    if order != [] {
      if values[order[0]].0 == preferred {
        GreedyRemaining(values, order[1..], stock, preferred, change, remaining);
      } else {
        var next := Take(values, order[0], stock, change, remaining);
        TakeFacts(values, order[0], stock, change, remaining);
        GreedyRemaining(values, order[1..], stock, preferred, next.0, next.1);
      }
    }
  }

  /** The greedy pass keeps every count within the stock. */
  lemma {:induction false} GreedyCapped(values: Entries<int>, order: seq<nat>, stock: seq<int>, preferred: string,
                                         change: seq<int>, remaining: int)
    requires ValidValues(values) && |stock| == |values| && |change| == |values|
    requires forall j :: 0 <= j < |order| ==> order[j] < |values|
    requires Capped(change, stock)
    ensures Capped(GreedyPass(values, order, stock, preferred, change, remaining).0, stock)
    decreases |order|
  {
    if order != [] {
      if values[order[0]].0 == preferred {
        GreedyCapped(values, order[1..], stock, preferred, change, remaining);
      } else {
        var next := Take(values, order[0], stock, change, remaining);
        TakeFacts(values, order[0], stock, change, remaining);
        GreedyCapped(values, order[1..], stock, preferred, next.0, next.1);
      }
    }
  }

  /**
   * Conservation: when every position still to visit holds a count of 0, the worth of the counts
   * plus the remainder is the same after the greedy pass as before it.
   */
  lemma {:induction false} GreedyConserves(values: Entries<int>, order: seq<nat>, stock: seq<int>, preferred: string,
                                            change: seq<int>, remaining: int)
    requires ValidValues(values) && |stock| == |values| && |change| == |values|
    requires forall j :: 0 <= j < |order| ==> order[j] < |values|
    requires Distinct(order)
    requires forall j :: 0 <= j < |order| && values[order[j]].0 != preferred ==> change[order[j]] == 0
    ensures var r := GreedyPass(values, order, stock, preferred, change, remaining);
      Worth(r.0, ValuesOf(values)) + r.1 == Worth(change, ValuesOf(values)) + remaining
    decreases |order|
  {
    if order != [] {
      assert forall j :: 0 <= j < |order[1..]| ==> order[1..][j] == order[j + 1];
      if values[order[0]].0 == preferred {
        GreedyConserves(values, order[1..], stock, preferred, change, remaining);
      } else {
        var next := Take(values, order[0], stock, change, remaining);
        TakeFacts(values, order[0], stock, change, remaining);
        TakeConserves(values, order[0], stock, change, remaining);
        forall j | 0 <= j < |order[1..]| && values[order[1..][j]].0 != preferred
          ensures next.0[order[1..][j]] == 0
        {
          assert order[j + 1] != order[0];
        }
        GreedyConserves(values, order[1..], stock, preferred, next.0, next.1);
      }
    }
  }

  lemma {:induction false} OrderFacts(algorithm: string, n: nat)
    ensures forall j :: 0 <= j < n ==> Order(algorithm, n)[j] < n
    ensures Distinct(Order(algorithm, n))
  {
  }

  /** With two strings that are not keys of the table, the greedy pass skips nothing either way. */
  lemma {:induction false} GreedyIgnoresUnknownKey(values: Entries<int>, order: seq<nat>, stock: seq<int>,
                                                    preferred: string, other: string, change: seq<int>, remaining: int)
    requires ValidValues(values) && |stock| == |values| && |change| == |values|
    requires forall j :: 0 <= j < |order| ==> order[j] < |values|
    requires preferred !in KeysOf(values) && other !in KeysOf(values)
    ensures GreedyPass(values, order, stock, preferred, change, remaining)
         == GreedyPass(values, order, stock, other, change, remaining)
    decreases |order|
  {
    if order != [] {
      assert KeysOf(values)[order[0]] == values[order[0]].0;
      var next := Take(values, order[0], stock, change, remaining);
      GreedyIgnoresUnknownKey(values, order[1..], stock, preferred, other, next.0, next.1);
    }
  }

  /** Spec's change vector and `impossible` flag come from the two passes. */
  lemma {:induction false} SpecUnfold(values: Entries<int>, dueCents: int, givenCents: int, register: Entries<int>,
                   algorithm: string, preferred: string)
    requires ValidValues(values)
    ensures var stock := Stock(values, register);
      var first := PreferredPass(values, stock, preferred, Zeros(|values|), givenCents - dueCents);
      var passes := Passes(values, dueCents, givenCents, register, algorithm, preferred);
      var r := Spec(values, dueCents, givenCents, register, algorithm, preferred);
      && passes == GreedyPass(values, Order(algorithm, |values|), stock, preferred, first.0, first.1)
      && r.changeToReturn == passes.0
      && (r.impossible <==> passes.1 > 0)
      && r.errors == ValidationErrors(dueCents, givenCents) + (if passes.1 > 0 then [CannotMakeChange(passes.1)] else [])
      && r.amountReturnedCents == givenCents - dueCents
  {
  }

  /** In a table without repeated keys, the position of a key is the one that holds it. */
  lemma {:induction false} PositionOfKey(values: Entries<int>, p: nat)
    requires Unique(values) && p < |values|
    ensures Position(values, values[p].0) == Some(p)
  {
    var q := Position(values, values[p].0);
    assert values[p].0 in KeysOf(values) by {
      assert KeysOf(values)[p] == values[p].0;
    }
  }

  /** The preferred pass conserves the amount: worth of the change plus the remainder. */
  lemma {:induction false} PreferredConserves(values: Entries<int>, stock: seq<int>, preferred: string, remaining: int)
    requires ValidValues(values) && |stock| == |values|
    ensures var r := PreferredPass(values, stock, preferred, Zeros(|values|), remaining);
      Worth(r.0, ValuesOf(values)) + r.1 == remaining
  {
    var zeros := Zeros(|values|);
    WorthZeros(ValuesOf(values));
    if NotEmpty(preferred) && Position(values, preferred).Some? {
      TakeConserves(values, Position(values, preferred).value, stock, zeros, remaining);
    }
  }

  /**
   * The preferred pass keeps a non-negative remainder between 0 and the amount, takes nothing from
   * a negative amount, stays within the stock and touches only the preferred key.
   */
  lemma {:induction false} PreferredFacts(values: Entries<int>, stock: seq<int>, preferred: string, remaining: int)
    requires ValidValues(values) && |stock| == |values|
    ensures var r := PreferredPass(values, stock, preferred, Zeros(|values|), remaining);
      && (remaining >= 0 ==> 0 <= r.1 <= remaining)
      && (remaining < 0 ==> r == (Zeros(|values|), remaining))
      && Capped(r.0, stock)
      && (forall i :: 0 <= i < |values| && values[i].0 != preferred ==> r.0[i] == 0)
  {
    var zeros := Zeros(|values|);
    var r := PreferredPass(values, stock, preferred, zeros, remaining);
    if NotEmpty(preferred) && Position(values, preferred).Some? {
      var p := Position(values, preferred).value;
      assert r == Take(values, p, stock, zeros, remaining);
      TakeFacts(values, p, stock, zeros, remaining);
      forall i | 0 <= i < |values| && i != p ensures r.0[i] == 0 {
        assert r.0[i] == zeros[i];
      }
    } else {
      assert r == (zeros, remaining);
    }
  }

  /** Both passes together conserve the amount to return. */
  lemma {:induction false} PassesConserve(values: Entries<int>, dueCents: int, givenCents: int, register: Entries<int>,
                       algorithm: string, preferred: string)
    requires ValidValues(values)
    ensures var passes := Passes(values, dueCents, givenCents, register, algorithm, preferred);
      Worth(passes.0, ValuesOf(values)) + passes.1 == givenCents - dueCents
  {
    var stock := Stock(values, register);
    var a := givenCents - dueCents;
    var first := PreferredPass(values, stock, preferred, Zeros(|values|), a);
    var order := Order(algorithm, |values|);
    PassesUnfold(values, dueCents, givenCents, register, algorithm, preferred);
    PreferredConserves(values, stock, preferred, a);
    OrderFacts(algorithm, |values|);
    assert forall j :: 0 <= j < |order| && values[order[j]].0 != preferred ==> first.0[order[j]] == 0 by {
      PreferredFacts(values, stock, preferred, a);
    }
    GreedyConserves(values, order, stock, preferred, first.0, first.1);
  }

  /** From given >= due, the amount still missing after both passes lies between 0 and the amount to return. */
  lemma {:induction false} PassesRemaining(values: Entries<int>, dueCents: int, givenCents: int, register: Entries<int>,
                        algorithm: string, preferred: string)
    requires ValidValues(values)
    ensures var missing := Passes(values, dueCents, givenCents, register, algorithm, preferred).1;
      givenCents >= dueCents ==> 0 <= missing <= givenCents - dueCents
  {
    var stock := Stock(values, register);
    var a := givenCents - dueCents;
    var first := PreferredPass(values, stock, preferred, Zeros(|values|), a);
    var order := Order(algorithm, |values|);
    OrderFacts(algorithm, |values|);
    PreferredFacts(values, stock, preferred, a);
    assert a >= 0 ==> 0 <= first.1 <= a;
    GreedyRemaining(values, order, stock, preferred, first.0, first.1);
    var g := GreedyPass(values, order, stock, preferred, first.0, first.1);
    assert a >= 0 ==> 0 <= g.1 <= a;
    PassesUnfold(values, dueCents, givenCents, register, algorithm, preferred);
    assert Passes(values, dueCents, givenCents, register, algorithm, preferred).1 == g.1;
  }

  /**
   * Conservation: the worth of the change plus the amount still missing is the amount to return.
   * From given >= due the missing amount lies between 0 and the amount to return; `impossible`
   * holds exactly when something is missing, and then the last error names the missing amount.
   * So a result that is not impossible returns exact change.
   */
  lemma {:induction false} SpecConserves(values: Entries<int>, dueCents: int, givenCents: int, register: Entries<int>,
                      algorithm: string, preferred: string)
    requires ValidValues(values)
    ensures var r := Spec(values, dueCents, givenCents, register, algorithm, preferred);
      var missing := Passes(values, dueCents, givenCents, register, algorithm, preferred).1;
      && Worth(r.changeToReturn, ValuesOf(values)) + missing == givenCents - dueCents
      && (givenCents >= dueCents ==> 0 <= missing <= givenCents - dueCents)
      && (r.impossible <==> missing > 0)
      && (r.impossible ==> r.errors != [] && r.errors[|r.errors| - 1] == CannotMakeChange(missing))
      && (givenCents >= dueCents && !r.impossible ==> Worth(r.changeToReturn, ValuesOf(values)) == givenCents - dueCents)
      && r.amountReturnedCents == givenCents - dueCents
  {
    SpecUnfold(values, dueCents, givenCents, register, algorithm, preferred);
    PassesConserve(values, dueCents, givenCents, register, algorithm, preferred);
    PassesRemaining(values, dueCents, givenCents, register, algorithm, preferred);
  }

  /** The change never exceeds the stock, and no count is negative. */
  lemma {:induction false} SpecCapped(values: Entries<int>, dueCents: int, givenCents: int, register: Entries<int>,
                   algorithm: string, preferred: string)
    requires ValidValues(values)
    ensures Capped(Spec(values, dueCents, givenCents, register, algorithm, preferred).changeToReturn, Stock(values, register))
  {
    SpecUnfold(values, dueCents, givenCents, register, algorithm, preferred);
    var stock := Stock(values, register);
    var first := PreferredPass(values, stock, preferred, Zeros(|values|), givenCents - dueCents);
    PreferredFacts(values, stock, preferred, givenCents - dueCents);
    OrderFacts(algorithm, |values|);
    GreedyCapped(values, Order(algorithm, |values|), stock, preferred, first.0, first.1);
  }

  /** Given less than due: an error, no denomination taken, nothing impossible, no new register. */
  lemma {:induction false} SpecUnderpaid(values: Entries<int>, dueCents: int, givenCents: int, register: Entries<int>,
                      algorithm: string, preferred: string)
    requires ValidValues(values) && givenCents < dueCents
    ensures var r := Spec(values, dueCents, givenCents, register, algorithm, preferred);
      && GivenInsufficient(givenCents, dueCents) in r.errors
      && r.changeToReturn == Zeros(|values|)
      && !r.impossible
      && r.newRegister == []
  {
    var stock := Stock(values, register);
    var first := PreferredPass(values, stock, preferred, Zeros(|values|), givenCents - dueCents);
    PreferredFacts(values, stock, preferred, givenCents - dueCents);
    OrderFacts(algorithm, |values|);
    GreedyRemaining(values, Order(algorithm, |values|), stock, preferred, first.0, first.1);
  }

  /**
   * A non-positive amount due is reported but does not stop the passes: from given >= due they
   * run on given - due as usual, so change can be handed out next to the error, while the new
   * register stays empty.
   */
  lemma {:induction false} SpecNonPositiveDue(values: Entries<int>, dueCents: int, givenCents: int, register: Entries<int>,
                           algorithm: string, preferred: string)
    requires ValidValues(values) && dueCents <= 0 && givenCents >= dueCents
    ensures var r := Spec(values, dueCents, givenCents, register, algorithm, preferred);
      && r.errors != [] && r.errors[0] == DueNotPositive
      && GivenInsufficient(givenCents, dueCents) !in r.errors
      && r.newRegister == []
      && r.changeToReturn == Passes(values, dueCents, givenCents, register, algorithm, preferred).0
      && (!r.impossible ==> Worth(r.changeToReturn, ValuesOf(values)) == givenCents - dueCents)
  {
    SpecUnfold(values, dueCents, givenCents, register, algorithm, preferred);
    SpecConserves(values, dueCents, givenCents, register, algorithm, preferred);
  }

  /** For instance, due 0 and given 3 over a single 1-cent value: the error, and 3 pieces handed out. */
  lemma {:induction false} NonPositiveDueExample()
    ensures var r := Spec([("a", 1)], 0, 3, [("a", 5)], "greedy", "");
      r.errors == [DueNotPositive] && r.changeToReturn == [3] && !r.impossible && r.newRegister == []
  {
    var values := [("a", 1)];
    var stock := Stock(values, [("a", 5)]);
    assert stock == [5];
    assert Position(values, "").None?;
    var first := PreferredPass(values, stock, "", Zeros(1), 3);
    assert first == (Zeros(1), 3);
    assert Order("greedy", 1) == [0];
    var t := Take(values, 0, stock, Zeros(1), 3);
    assert Zeros(1) == [0] && Min(3 / 1, 5) == 3;
    assert t.0 == [0][0 := 3] == [3] && t.1 == 0;
    assert GreedyPass(values, [0], stock, "", first.0, first.1) == GreedyPass(values, [], stock, "", t.0, t.1);
    SpecUnfold(values, 0, 3, [("a", 5)], "greedy", "");
  }

  /** What the preferred pass takes of a preferred key that is in the table. */
  lemma {:induction false} PreferredTake(values: Entries<int>, stock: seq<int>, preferred: string, p: nat, a: int)
    requires ValidValues(values) && Unique(values) && |stock| == |values| && NotEmpty(preferred)
    requires p < |values| && values[p].0 == preferred
    ensures var v := values[p].1;
      PreferredPass(values, stock, preferred, Zeros(|values|), a).0[p]
      == if a >= v && stock[p] > 0 then Min(a / v, stock[p]) else 0
  {
    PositionOfKey(values, p);
    assert PreferredPass(values, stock, preferred, Zeros(|values|), a) == Take(values, p, stock, Zeros(|values|), a);
  }

  /**
   * The preferred denomination, when it is a key of the table, is used first and exactly
   * min(floor(amount / value), stock) times if the amount reaches its value and the stock is
   * positive, and not at all otherwise: the greedy pass never touches it.
   */
  lemma {:induction false} SpecPreferred(values: Entries<int>, dueCents: int, givenCents: int, register: Entries<int>,
                      algorithm: string, preferred: string, p: nat)
    requires ValidValues(values) && Unique(values) && NotEmpty(preferred) && p < |values| && values[p].0 == preferred
    ensures var r := Spec(values, dueCents, givenCents, register, algorithm, preferred);
      var a := givenCents - dueCents;
      var v := values[p].1;
      var s := Stock(values, register)[p];
      && (a >= v && s > 0 ==> r.changeToReturn[p] == Min(a / v, s))
      && (a < v || s <= 0 ==> r.changeToReturn[p] == 0)
  {
    PassesPreferred(values, dueCents, givenCents, register, algorithm, preferred, p);
    PreferredTake(values, Stock(values, register), preferred, p, givenCents - dueCents);
    SpecUnfold(values, dueCents, givenCents, register, algorithm, preferred);
  }

  /** Passes is the greedy pass run from the result of the preferred pass. */
  lemma {:induction false} PassesUnfold(values: Entries<int>, dueCents: int, givenCents: int, register: Entries<int>,
                     algorithm: string, preferred: string)
    requires ValidValues(values)
    ensures var stock := Stock(values, register);
      var first := PreferredPass(values, stock, preferred, Zeros(|values|), givenCents - dueCents);
      Passes(values, dueCents, givenCents, register, algorithm, preferred)
      == GreedyPass(values, Order(algorithm, |values|), stock, preferred, first.0, first.1)
  {
  }

  /** After both passes, the preferred key holds what the preferred pass took. */
  lemma {:induction false} PassesPreferred(values: Entries<int>, dueCents: int, givenCents: int, register: Entries<int>,
                        algorithm: string, preferred: string, p: nat)
    requires ValidValues(values) && p < |values| && values[p].0 == preferred
    ensures var first := PreferredPass(values, Stock(values, register), preferred, Zeros(|values|), givenCents - dueCents);
      Passes(values, dueCents, givenCents, register, algorithm, preferred).0[p] == first.0[p]
  {
    var stock := Stock(values, register);
    var first := PreferredPass(values, stock, preferred, Zeros(|values|), givenCents - dueCents);
    PassesUnfold(values, dueCents, givenCents, register, algorithm, preferred);
    GreedyFrame(values, Order(algorithm, |values|), stock, preferred, first.0, first.1, p);
  }

  lemma {:induction false} PassesUnknownPreference(values: Entries<int>, dueCents: int, givenCents: int, register: Entries<int>,
                                algorithm: string, preferred: string)
    requires ValidValues(values) && preferred !in KeysOf(values) && "" !in KeysOf(values)
    ensures Passes(values, dueCents, givenCents, register, algorithm, preferred)
         == Passes(values, dueCents, givenCents, register, algorithm, "")
  {
    var stock := Stock(values, register);
    var a := givenCents - dueCents;
    assert PreferredPass(values, stock, preferred, Zeros(|values|), a) == (Zeros(|values|), a);
    OrderFacts(algorithm, |values|);
    GreedyIgnoresUnknownKey(values, Order(algorithm, |values|), stock, preferred, "", Zeros(|values|), a);
  }

  /** A preference that is not a key of the table changes nothing. */
  lemma {:induction false} SpecUnknownPreference(values: Entries<int>, dueCents: int, givenCents: int, register: Entries<int>,
                              algorithm: string, preferred: string)
    requires ValidValues(values) && preferred !in KeysOf(values) && "" !in KeysOf(values)
    ensures Spec(values, dueCents, givenCents, register, algorithm, preferred)
         == Spec(values, dueCents, givenCents, register, algorithm, "")
  {
    PassesUnknownPreference(values, dueCents, givenCents, register, algorithm, preferred);
  }

  /** Any `algorithm` other than exactly "reverse" behaves as the standard largest-first order. */
  lemma {:induction false} SpecAlgorithm(values: Entries<int>, dueCents: int, givenCents: int, register: Entries<int>,
                      algorithm: string, preferred: string)
    requires ValidValues(values) && algorithm != "reverse"
    ensures Spec(values, dueCents, givenCents, register, algorithm, preferred)
         == Spec(values, dueCents, givenCents, register, "greedy", preferred)
  {
    assert Order(algorithm, |values|) == Order("greedy", |values|);
  }

  /**
   * The new register exists exactly when there is no error. It is then current - change + credit
   * for every key, non-negative wherever the current count is, and, when the smallest value is
   * 1 cent, its worth is the old worth plus the amount due.
   */
  lemma {:induction false} SpecNewRegister(values: Entries<int>, dueCents: int, givenCents: int, register: Entries<int>,
                        algorithm: string, preferred: string)
    requires ValidValues(values)
    ensures var r := Spec(values, dueCents, givenCents, register, algorithm, preferred);
      var stock := Stock(values, register);
      && (r.newRegister != [] <==> r.errors == [] && |values| > 0)
      && (r.errors == [] ==>
            |r.newRegister| == |values|
            && (forall i :: 0 <= i < |values| ==>
                  r.newRegister[i] == stock[i] - r.changeToReturn[i] + Credit(values, givenCents)[i])
            && (forall i :: 0 <= i < |values| && stock[i] >= 0 ==> r.newRegister[i] >= 0))
      && (r.errors == [] && |values| > 0 && values[|values| - 1].1 == 1 ==>
            Worth(r.newRegister, ValuesOf(values)) == Worth(stock, ValuesOf(values)) + dueCents)
  {
    var r := Spec(values, dueCents, givenCents, register, algorithm, preferred);
    var stock := Stock(values, register);
    var cents := ValuesOf(values);
    if r.errors == [] && |values| > 0 {
      SpecConserves(values, dueCents, givenCents, register, algorithm, preferred);
      SpecCapped(values, dueCents, givenCents, register, algorithm, preferred);
      DecomposeBounds(givenCents, cents);
      if values[|values| - 1].1 == 1 {
        DecomposeExact(givenCents, cents);
        WorthRestock(r.newRegister, stock, r.changeToReturn, Credit(values, givenCents), cents);
      }
    }
  }
}
