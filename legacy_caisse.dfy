/**
 * The older change computation of app/backend/traitement_caisse.php, repeated line for line in
 * app/process_caisse.php: validation, one largest-first greedy pass with no preference, the
 * infeasibility flag and the new register. The posted form is an array of integer counts.
 */
module LegacyCaisse {
  import opened Wrappers
  import opened Assoc
  import opened ChangeMath
  import opened CashRegister
  import Currency
  import Monnaie

  datatype LegacyResult = LegacyResult(
    change: seq<int>,        // $monnaie_a_rendre
    newRegister: seq<int>,   // $nouvelle_caisse ([] when not computed)
    errors: seq<ChangeError>,
    impossible: bool)

  /** A denomination table whose keys are distinct and whose values are positive. */
  ghost predicate WellFormed(config: seq<Currency.Denomination>)
  {
    (forall i, j :: 0 <= i < j < |config| ==> config[i].key != config[j].key)
    && forall i :: 0 <= i < |config| ==> config[i].cents > 0
  }

  /** `$valeurs_monnaie`: every key of the config mapped to its `centimes`, in order. */
  function ConfigValues(config: seq<Currency.Denomination>): (v: Entries<int>)
    ensures |v| == |config|
    ensures forall i :: 0 <= i < |v| ==> v[i] == (config[i].key, config[i].cents)
    ensures WellFormed(config) ==> ValidValues(v)
  {
    seq(|config|, i requires 0 <= i < |config| => (config[i].key, config[i].cents))
  }

  /** `$labels_monnaie`: every key of the config mapped to its label, in order. */
  function ConfigLabels(config: seq<Currency.Denomination>): (l: Entries<string>)
    ensures |l| == |config|
    ensures forall i :: 0 <= i < |l| ==> l[i] == (config[i].key, config[i].labelText)
  {
    seq(|config|, i requires 0 <= i < |config| => (config[i].key, config[i].labelText))
  }

  /** `$valeurs_monnaie` for app/config/monnaie.php: valid, ending with 1 cent, no empty key. */
  function MonnaieValues(): (v: Entries<int>)
    ensures v == ConfigValues(Monnaie.Config)
    ensures ValidValues(v) && v[|v| - 1].1 == 1 && "" !in KeysOf(v)
  {
    Monnaie.ConfigShape();
    Monnaie.KeysDistinct();
    var v := ConfigValues(Monnaie.Config);
    assert forall i :: 0 <= i < |v| ==> KeysOf(v)[i] != "";
    v
  }

  /**
   * The count one denomination of value `v` contributes (lines 61-68): as many as fit in the
   * amount still due, capped by what the register holds, or none.
   */
  function LegacyCount(v: int, available: int, remaining: int): int
    requires v > 0
  {
    if remaining >= v && available > 0 then Min(remaining / v, available) else 0
  }

  /**
   * The largest-first pass of lines 58-69 from position `i` on: each count starts at 0 and takes
   * as many of the denomination as fit, capped by what the register holds. The result is the
   * counts of positions `i..` and the amount still due after them.
   */
  function LegacyFrom(cents: seq<int>, stock: seq<int>, i: nat, remaining: int): (r: (seq<int>, int))
    requires |stock| == |cents| && i <= |cents| && AllPositive(cents)
    ensures |r.0| == |cents| - i
    decreases |cents| - i
  {
    if i == |cents| then ([], remaining)
    else
      var c := LegacyCount(cents[i], stock[i], remaining);
      var rest := LegacyFrom(cents, stock, i + 1, remaining - c * cents[i]);
      ([c] + rest.0, rest.1)
  }

  /** The whole legacy pass, in table order. */
  function LegacyGreedy(cents: seq<int>, stock: seq<int>, remaining: int): (r: (seq<int>, int))
    requires |stock| == |cents| && AllPositive(cents)
    ensures |r.0| == |cents|
  {
    LegacyFrom(cents, stock, 0, remaining)
  }

  /** What the script computes (lines 40-96) from the values table and the counts read from the form. */
  function LegacySpec(values: Entries<int>, dueCents: int, givenCents: int, form: Entries<int>): LegacyResult
    requires ValidValues(values)
  {
    var stock := Stock(values, form);
    var pass := LegacyGreedy(ValuesOf(values), stock, givenCents - dueCents);
    var impossible := pass.1 > 0;
    var errors := ValidationErrors(dueCents, givenCents) + (if impossible then [CannotMakeChange(pass.1)] else []);
    var newRegister :=
      if !impossible && errors == [] then Restock(stock, pass.0, Credit(values, givenCents)) else [];
    LegacyResult(pass.0, newRegister, errors, impossible)
  }

  /** Lines 26-31: `$valeurs_monnaie` and `$labels_monnaie`, built key by key from the config. */
  method BuildTables(config: seq<Currency.Denomination>) returns (values: Entries<int>, labels: Entries<string>)
    requires forall i, j :: 0 <= i < j < |config| ==> config[i].key != config[j].key
    ensures values == ConfigValues(config) && labels == ConfigLabels(config)
  {
    values, labels := [], [];
    for i := 0 to |config|
      invariant values == ConfigValues(config)[..i] && labels == ConfigLabels(config)[..i]
    {
      TableStep(config, i, values, config[i].cents);
      TableStep(config, i, labels, config[i].labelText);
      PrefixSnoc(ConfigValues(config), i);
      PrefixSnoc(ConfigLabels(config), i);
      values := Put(values, config[i].key, config[i].cents);
      labels := Put(labels, config[i].key, config[i].labelText);
    }
    assert ConfigValues(config)[..|config|] == ConfigValues(config);
    assert ConfigLabels(config)[..|config|] == ConfigLabels(config);
  }

  /** Lines 34-37: `$caisse_actuelle[$cle] = intval($_POST[$cle] ?? 0)` for every key. */
  method ReadRegister(values: Entries<int>, form: Entries<int>) returns (current: seq<int>)
    ensures current == Stock(values, form)
  {
    current := [];
    for i := 0 to |values|
      invariant current == Stock(values, form)[..i]
    {
      PrefixSnoc(Stock(values, form), i);
      current := current + [GetOr(form, values[i].0, 0)];
    }
    assert Stock(values, form)[..|values|] == Stock(values, form);
  }

  /** A table built key by key from distinct keys grows by one entry at each key. */
  lemma {:induction false} TableStep<V>(config: seq<Currency.Denomination>, i: nat, a: Entries<V>, v: V)
    requires forall p, q :: 0 <= p < q < |config| ==> config[p].key != config[q].key
    requires i < |config| && |a| == i && forall j :: 0 <= j < i ==> a[j].0 == config[j].key
    ensures Put(a, config[i].key, v) == a + [(config[i].key, v)]
  {
    PutAbsent(a, config[i].key, v);
  }

  /** A prefix followed by the next element is the next prefix. */
  lemma {:induction false} PrefixSnoc<T>(s: seq<T>, i: nat)
    requires i < |s|
    ensures s[..i] + [s[i]] == s[..i + 1]
  {
  }

  /** The greedy loop of lines 54-69. */
  method GreedyLoop(values: Entries<int>, current: seq<int>, amountToReturn: int)
    returns (change: seq<int>, remaining: int)
    requires ValidValues(values) && |current| == |values|
    ensures (change, remaining) == LegacyGreedy(ValuesOf(values), current, amountToReturn)
  {
    ghost var cents := ValuesOf(values);
    ghost var target := LegacyGreedy(cents, current, amountToReturn);
    change, remaining := [], amountToReturn;
    for i := 0 to |values|
      invariant |change| == i
      invariant change + LegacyFrom(cents, current, i, remaining).0 == target.0
      invariant LegacyFrom(cents, current, i, remaining).1 == target.1
    {
      ghost var before := remaining;
      var value := values[i].1;
      var count := 0;
      if remaining >= value && current[i] > 0 {
        count := Min(remaining / value, current[i]);
        remaining := remaining - count * value;
      }
      LegacyStep(cents, current, i, before, change, target, count, remaining);
      change := change + [count];
    }
    assert change + [] == change;
  }

  /** One step of the legacy pass: the count at position `i`, then the pass from `i + 1`. */
  lemma {:induction false} LegacyFromStep(cents: seq<int>, stock: seq<int>, i: nat, remaining: int)
    requires |stock| == |cents| && AllPositive(cents) && i < |cents|
    ensures var c := LegacyCount(cents[i], stock[i], remaining);
      var rest := LegacyFrom(cents, stock, i + 1, remaining - c * cents[i]);
      LegacyFrom(cents, stock, i, remaining) == ([c] + rest.0, rest.1)
  {
  }

  /**
   * The loop's invariant survives one step: the counts so far followed by the pass from `i`
   * are the counts so far and the count at `i` followed by the pass from `i + 1`.
   */
  lemma {:induction false} LegacyStep(cents: seq<int>, stock: seq<int>, i: nat, remaining: int,
                                      change: seq<int>, target: (seq<int>, int), c: int, left: int)
    requires |stock| == |cents| && AllPositive(cents) && i < |cents|
    requires change + LegacyFrom(cents, stock, i, remaining).0 == target.0
    requires LegacyFrom(cents, stock, i, remaining).1 == target.1
    requires c == LegacyCount(cents[i], stock[i], remaining) && left == remaining - c * cents[i]
    ensures (change + [c]) + LegacyFrom(cents, stock, i + 1, left).0 == target.0
    ensures LegacyFrom(cents, stock, i + 1, left).1 == target.1
  {
    var rest := LegacyFrom(cents, stock, i + 1, left);
    LegacyFromStep(cents, stock, i, remaining);
    assert (change + [c]) + rest.0 == change + ([c] + rest.0);
  }

  /** The new register of lines 78-96: debit the change, then credit the received cents largest-first. */
  method NewRegisterLoop(values: Entries<int>, current: seq<int>, change: seq<int>, givenCents: int)
    returns (newRegister: seq<int>)
    requires ValidValues(values) && |current| == |values| && |change| == |values|
    ensures newRegister == Restock(current, change, Credit(values, givenCents))
  {
    newRegister := [];
    for i := 0 to |values|
      invariant |newRegister| == i
      invariant forall k :: 0 <= k < i ==> newRegister[k] == current[k] - change[k]
    {
      newRegister := newRegister + [current[i] - change[i]];
    }

    ghost var debited := newRegister;
    newRegister := CreditLoop(values, newRegister, givenCents);
    ghost var expected := Restock(current, change, Credit(values, givenCents));
    assert forall k :: 0 <= k < |values| ==> newRegister[k] == expected[k];
  }

  /** Lines 40-96 once the values table is known and the form has been posted. */
  method Process(values: Entries<int>, dueCents: int, givenCents: int, form: Entries<int>)
    returns (result: LegacyResult)
    requires ValidValues(values)
    ensures result == LegacySpec(values, dueCents, givenCents, form)
  {
    var current := ReadRegister(values, form);
    var amountToReturn := givenCents - dueCents;

    var errors: seq<ChangeError> := [];
    if dueCents <= 0 {
      errors := errors + [DueNotPositive];
    }
    if givenCents < dueCents {
      errors := errors + [GivenInsufficient(givenCents, dueCents)];
    }
    assert errors == ValidationErrors(dueCents, givenCents);

    var change, remaining := GreedyLoop(values, current, amountToReturn);
    var impossible := false;
    if remaining > 0 {
      errors := errors + [CannotMakeChange(remaining)];
      impossible := true;
    }

    var newRegister: seq<int> := [];
    if !impossible && errors == [] {
      newRegister := NewRegisterLoop(values, current, change, givenCents);
    }
    result := LegacyResult(change, newRegister, errors, impossible);
    LegacySpecIs(values, dueCents, givenCents, form, result);
  }

  /** A result built from the pass over the form's counts, in the order of lines 40-96, is the specification's. */
  lemma {:induction false} LegacySpecIs(values: Entries<int>, dueCents: int, givenCents: int, form: Entries<int>,
                                        result: LegacyResult)
    requires ValidValues(values)
    requires var pass := LegacyGreedy(ValuesOf(values), Stock(values, form), givenCents - dueCents);
      && result.change == pass.0
      && result.impossible == (pass.1 > 0)
      && result.errors == ValidationErrors(dueCents, givenCents) + (if pass.1 > 0 then [CannotMakeChange(pass.1)] else [])
      && result.newRegister
         == if !result.impossible && result.errors == [] then Restock(Stock(values, form), pass.0, Credit(values, givenCents)) else []
    ensures result == LegacySpec(values, dueCents, givenCents, form)
  {
  }

  /** app/backend/traitement_caisse.php over the table of app/config/monnaie.php. */
  method TraitementCaisse(dueCents: int, givenCents: int, form: Entries<int>) returns (result: LegacyResult)
    ensures result == LegacySpec(MonnaieValues(), dueCents, givenCents, form)
  {
    Monnaie.KeysDistinct();
    var values, labels := BuildTables(Monnaie.Config);
    assert values == MonnaieValues();
    result := Process(values, dueCents, givenCents, form);
  }

  /**
   * app/process_caisse.php: the same computation over the table its `config_monnaie.php` defines;
   * that file is not part of this model, so its table is a parameter.
   */
  method ProcessCaisse(config: seq<Currency.Denomination>, dueCents: int, givenCents: int, form: Entries<int>)
    returns (result: LegacyResult)
    requires WellFormed(config)
    ensures result == LegacySpec(ConfigValues(config), dueCents, givenCents, form)
  {
    var values, labels := BuildTables(config);
    result := Process(values, dueCents, givenCents, form);
  }
}
