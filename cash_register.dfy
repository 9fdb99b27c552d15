/**
 * The change engine of app/Models/CashRegister.php (`calculateChange`): validation, an optional
 * preferred-denomination pass, a greedy pass in table order or reversed, the infeasibility flag and
 * the new register that debits the change and credits the amount received, decomposed
 * largest-first.
 *
 * Amounts are integer cents. The engine is written over the key-to-cents array `values` that
 * `Currency::getValues()` returns; arrays keyed like it (`change_to_return`, `new_register`) are
 * count sequences aligned with `values`, and an empty `new_register` is `[]`. A null
 * `preferredValue` is written as "": the two behave the same over any table without an empty
 * key, such as Currency's (see PassesUnknownPreference).
 */
module CashRegister {
  import opened Wrappers
  import opened Assoc
  import opened ChangeMath
  import Currency

  datatype ChangeError =
    | DueNotPositive                                   // "Le montant dû doit être supérieur à 0."
    | GivenInsufficient(givenCents: int, dueCents: int) // "Le montant donné (...) est insuffisant ..."
    | CannotMakeChange(missingCents: int)              // "Impossible de rendre la monnaie exacte ..."

  datatype ChangeResult = ChangeResult(
    changeToReturn: seq<int>,
    newRegister: seq<int>,
    errors: seq<ChangeError>,
    impossible: bool,
    amountReturnedCents: int)

  /**
   * What the engine needs of its value table: every value positive. (A PHP array never holds a
   * key twice; only the lemmas about the preferred key rely on that, and they require `Unique`.)
   */
  ghost predicate ValidValues(values: Entries<int>)
  {
    forall i :: 0 <= i < |values| ==> values[i].1 > 0
  }

  /** `$currentRegister[$key]` for every key of the table; a missing key reads as PHP null, i.e. 0. */
  function Stock(values: Entries<int>, register: Entries<int>): (s: seq<int>)
    ensures |s| == |values|
    ensures forall i :: 0 <= i < |s| ==> s[i] == GetOr(register, values[i].0, 0)
  {
    seq(|values|, i requires 0 <= i < |values| => GetOr(register, values[i].0, 0))
  }

  /** The validation messages, in the order the source adds them. */
  function ValidationErrors(dueCents: int, givenCents: int): (e: seq<ChangeError>)
    ensures DueNotPositive in e <==> dueCents <= 0
    ensures GivenInsufficient(givenCents, dueCents) in e <==> givenCents < dueCents
    ensures forall x :: x in e ==> x == DueNotPositive || x == GivenInsufficient(givenCents, dueCents)
    ensures |e| == 2 ==> e[0] == DueNotPositive
  {
    (if dueCents <= 0 then [DueNotPositive] else [])
    + (if givenCents < dueCents then [GivenInsufficient(givenCents, dueCents)] else [])
  }

  /** PHP's `!empty($s)` for a string: neither "" nor "0". */
  predicate NotEmpty(s: string)
  {
    s != "" && s != "0"
  }

  /** Positions in the order the greedy pass visits them: reversed exactly for `'reverse'`. */
  function Order(algorithm: string, n: nat): (o: seq<nat>)
    ensures |o| == n
    ensures forall j :: 0 <= j < n ==> o[j] == if algorithm == "reverse" then n - 1 - j else j
  {
    if algorithm == "reverse" then seq(n, j requires 0 <= j < n => (n - 1 - j) as nat)
    else seq(n, j requires 0 <= j < n => j as nat)
  }

  /**
   * One use of a denomination (lines 113-119 and 135-142): when the amount still due reaches its
   * value and the register holds some, take as many as fit, capped by the stock.
   */
  function Take(values: Entries<int>, i: nat, stock: seq<int>, change: seq<int>, remaining: int): (r: (seq<int>, int))
    requires ValidValues(values) && |stock| == |values| && |change| == |values| && i < |values|
    ensures |r.0| == |values|
  {
    var v := values[i].1;
    if remaining >= v && stock[i] > 0 then
      var c := Min(remaining / v, stock[i]);
      (change[i := c], remaining - c * v)
    else (change, remaining)
  }

  /** The preferred-denomination pass (lines 110-121). */
  function PreferredPass(values: Entries<int>, stock: seq<int>, preferred: string, change: seq<int>, remaining: int): (r: (seq<int>, int))
    requires ValidValues(values) && |stock| == |values| && |change| == |values|
    ensures |r.0| == |values|
  {
    if NotEmpty(preferred) then
      match Position(values, preferred)
      case Some(p) => Take(values, p, stock, change, remaining)
      case None => (change, remaining)
    else (change, remaining)
  }

  /** The greedy pass (lines 130-143) over the positions in `order`, skipping the preferred key. */
  function GreedyPass(values: Entries<int>, order: seq<nat>, stock: seq<int>, preferred: string, change: seq<int>, remaining: int): (r: (seq<int>, int))
    requires ValidValues(values) && |stock| == |values| && |change| == |values|
    requires forall j :: 0 <= j < |order| ==> order[j] < |values|
    ensures |r.0| == |values|
    decreases |order|
  {
    if order == [] then (change, remaining)
    else if values[order[0]].0 == preferred then
      GreedyPass(values, order[1..], stock, preferred, change, remaining)
    else
      var next := Take(values, order[0], stock, change, remaining);
      GreedyPass(values, order[1..], stock, preferred, next.0, next.1)
  }

  /** The change vector and the amount still to return once both passes have run. */
  function Passes(values: Entries<int>, dueCents: int, givenCents: int, register: Entries<int>, algorithm: string, preferred: string): (r: (seq<int>, int))
    requires ValidValues(values)
    ensures |r.0| == |values|
  {
    var stock := Stock(values, register);
    var first := PreferredPass(values, stock, preferred, Zeros(|values|), givenCents - dueCents);
    GreedyPass(values, Order(algorithm, |values|), stock, preferred, first.0, first.1)
  }

  /** `current - change + credit`, position by position. */
  function Restock(stock: seq<int>, change: seq<int>, credit: seq<int>): (r: seq<int>)
    requires |stock| == |change| == |credit|
    ensures |r| == |stock|
    ensures forall i :: 0 <= i < |r| ==> r[i] == stock[i] - change[i] + credit[i]
  {
    seq(|stock|, i requires 0 <= i < |stock| => stock[i] - change[i] + credit[i])
  }

  /** The amount received, decomposed largest-first and without limit over the table (lines 159-168). */
  function Credit(values: Entries<int>, givenCents: int): (c: seq<int>)
    requires ValidValues(values)
    ensures |c| == |values|
  {
    Decompose(givenCents, ValuesOf(values))
  }

  /** What `calculateChange` returns over the value table `values`, as a function of its inputs. */
  function Spec(values: Entries<int>, dueCents: int, givenCents: int, register: Entries<int>, algorithm: string, preferred: string): ChangeResult
    requires ValidValues(values)
  {
    var passes := Passes(values, dueCents, givenCents, register, algorithm, preferred);
    var impossible := passes.1 > 0;
    var errors := ValidationErrors(dueCents, givenCents) + (if impossible then [CannotMakeChange(passes.1)] else []);
    var newRegister :=
      if !impossible && errors == [] then Restock(Stock(values, register), passes.0, Credit(values, givenCents))
      else [];
    ChangeResult(passes.0, newRegister, errors, impossible, givenCents - dueCents)
  }

  /** `Currency::getValues()`, which satisfies what the engine needs. */
  function StandardValues(): (v: Entries<int>)
    ensures ValidValues(v) && v == Currency.ValueTable()
  {
    Currency.ValueTableFacts();
    Currency.ValueTable()
  }

  /** `calculateChange` over the fifteen standard denominations. */
  function StandardSpec(dueCents: int, givenCents: int, register: Entries<int>, algorithm: string, preferred: string): ChangeResult
  {
    Spec(StandardValues(), dueCents, givenCents, register, algorithm, preferred)
  }

  /** The preferred-denomination block of `calculateChange` (lines 110-121). */
  method PreferredStep(values: Entries<int>, register: Entries<int>, preferred: string, change0: seq<int>, remaining0: int)
    returns (change: seq<int>, remaining: int)
    requires ValidValues(values)
    requires |change0| == |values|
    ensures (change, remaining) == PreferredPass(values, Stock(values, register), preferred, change0, remaining0)
  {
    change, remaining := change0, remaining0;
    var position := Position(values, preferred);
    if NotEmpty(preferred) && position.Some? {
      var p := position.value;
      var preferredCents := values[p].1;
      var available := GetOr(register, preferred, 0);
      if remaining >= preferredCents && available > 0 {
        var countToUse := Min(remaining / preferredCents, available);
        change := change[p := countToUse];
        remaining := remaining - countToUse * preferredCents;
      }
    }
  }

  /** The greedy loop of `calculateChange` (lines 130-143). */
  method GreedyLoop(values: Entries<int>, register: Entries<int>, preferred: string, order: seq<nat>,
                    change0: seq<int>, remaining0: int)
    returns (change: seq<int>, remaining: int)
    requires ValidValues(values)
    requires |change0| == |values|
    requires forall j :: 0 <= j < |order| ==> order[j] < |values|
    ensures (change, remaining) == GreedyPass(values, order, Stock(values, register), preferred, change0, remaining0)
  {
    ghost var stock := Stock(values, register);
    ghost var target := GreedyPass(values, order, stock, preferred, change0, remaining0);
    change, remaining := change0, remaining0;
    for j := 0 to |order|
      invariant |change| == |values|
      invariant GreedyPass(values, order[j..], stock, preferred, change, remaining) == target
    {
      var i := order[j];
      assert order[j..][1..] == order[j + 1..];
      if values[i].0 == preferred {
        continue;
      }
      var value := values[i].1;
      var available := GetOr(register, values[i].0, 0);
      if remaining >= value && available > 0 {
        var countToReturn := Min(remaining / value, available);
        change := change[i := countToReturn];
        remaining := remaining - countToReturn * value;
      }
    }
  }

  /** `new_register` (lines 152-168): the debit loop, then the credit loop. */
  method NewRegisterLoop(values: Entries<int>, register: Entries<int>, change: seq<int>, givenCents: int)
    returns (newRegister: seq<int>)
    requires ValidValues(values)
    requires |change| == |values|
    ensures newRegister == Restock(Stock(values, register), change, Credit(values, givenCents))
  {
    ghost var stock := Stock(values, register);
    newRegister := [];
    for i := 0 to |values|
      invariant |newRegister| == i
      invariant forall k :: 0 <= k < i ==> newRegister[k] == stock[k] - change[k]
    {
      newRegister := newRegister + [GetOr(register, values[i].0, 0) - change[i]];
    }

    newRegister := CreditLoop(values, newRegister, givenCents);
    ghost var expected := Restock(stock, change, Credit(values, givenCents));
    assert forall k :: 0 <= k < |values| ==> newRegister[k] == expected[k];
  }

  /**
   * The credit loop (lines 159-168): the received cents are added to `debited` largest-first,
   * as many of each value as fit, with no cap.
   */
  method CreditLoop(values: Entries<int>, debited: seq<int>, givenCents: int) returns (newRegister: seq<int>)
    requires ValidValues(values) && |debited| == |values|
    ensures |newRegister| == |values|
    ensures forall k :: 0 <= k < |values| ==> newRegister[k] == debited[k] + Credit(values, givenCents)[k]
  {
    ghost var cents := ValuesOf(values);
    ghost var credit := Decompose(givenCents, cents);
    newRegister := debited;
    var amountToAdd := givenCents;
    for i := 0 to |values|
      invariant |newRegister| == |values|
      invariant forall k :: 0 <= k < i ==> newRegister[k] == debited[k] + credit[k]
      invariant forall k :: i <= k < |values| ==> newRegister[k] == debited[k]
      invariant Decompose(amountToAdd, cents[i..]) == credit[i..]
    {
      assert cents[i..][1..] == cents[i + 1..];
      var value := values[i].1;
      if amountToAdd >= value {
        var count := amountToAdd / value;
        newRegister := newRegister[i := newRegister[i] + count];
        amountToAdd := amountToAdd - count * value;
      }
      assert credit[i + 1..] == credit[i..][1..];
    }
  }

  /**
   * Lines 99-143 of `calculateChange`: every count set to 0, then the preferred pass and the
   * greedy pass in the order the algorithm selects.
   */
  method ChangePasses(values: Entries<int>, dueCents: int, givenCents: int, register: Entries<int>,
                      algorithm: string, preferred: string)
    returns (change: seq<int>, remaining: int)
    requires ValidValues(values)
    ensures (change, remaining) == Passes(values, dueCents, givenCents, register, algorithm, preferred)
  {
    change := [];
    for i := 0 to |values|
      invariant change == Zeros(i)
    {
      change := change + [0];
    }

    remaining := givenCents - dueCents;
    change, remaining := PreferredStep(values, register, preferred, change, remaining);

    var order := if algorithm == "reverse" then Order("reverse", |values|) else Order("", |values|);
    assert order == Order(algorithm, |values|);
    change, remaining := GreedyLoop(values, register, preferred, order, change, remaining);
  }

  /** The body of `calculateChange` once `Currency::getValues()` has produced `values`. */
  method CalculateChangeOver(values: Entries<int>, dueCents: int, givenCents: int, register: Entries<int>,
                             algorithm: string, preferred: string)
    returns (result: ChangeResult)
    requires ValidValues(values)
    ensures result == Spec(values, dueCents, givenCents, register, algorithm, preferred)
  {
    var amountToReturn := givenCents - dueCents;

    var errors: seq<ChangeError> := [];
    if dueCents <= 0 {
      errors := errors + [DueNotPositive];
    }
    if givenCents < dueCents {
      errors := errors + [GivenInsufficient(givenCents, dueCents)];
    }
    assert errors == ValidationErrors(dueCents, givenCents);

    var change, remaining := ChangePasses(values, dueCents, givenCents, register, algorithm, preferred);
    var impossible := false;
    if remaining > 0 {
      errors := errors + [CannotMakeChange(remaining)];
      impossible := true;
    }

    var newRegister: seq<int> := [];
    if !impossible && errors == [] {
      newRegister := NewRegisterLoop(values, register, change, givenCents);
    }

    result := ChangeResult(change, newRegister, errors, impossible, amountToReturn);
  }

  /**
   * `CashRegister::calculateChange`, with the amounts in cents. The register passed in is a value
   * and is left as it was.
   */
  method CalculateChange(dueCents: int, givenCents: int, register: Entries<int>, algorithm: string, preferred: string)
    returns (result: ChangeResult)
    ensures result == StandardSpec(dueCents, givenCents, register, algorithm, preferred)
  {
    var values := Currency.GetValues();
    assert values == StandardValues();
    result := CalculateChangeOver(values, dueCents, givenCents, register, algorithm, preferred);
  }
}
