/**
 * The fluent builder of app/Builders/CashRegisterBuilder.php: two arrays of counts, bills and
 * coins, changed in place by clamped setters, `add`, `remove` and the resets, and turned into a
 * snapshot by `build`, which fills in every missing standard key with 0. The fifteen
 * `setBill500` .. `setCoin001` setters are one method indexed by the table position.
 */
module RegisterBuilder {
  import opened Wrappers
  import opened Assoc
  import opened Strs
  import Currency
  import opened RegisterState

  /** `max(0, $count)`. */
  function NonNegative(count: int): int
  {
    if count < 0 then 0 else count
  }

  /** The counts `withDefaults` sets, in table order. */
  const DefaultCounts: seq<int> := [1, 2, 2, 4, 1, 23, 0, 34, 23, 23, 80, 12, 8, 45, 12]

  /** An array holding each key with its clamped count, in order. */
  function Filled(keys: seq<string>, counts: seq<int>): (r: Entries<int>)
    requires |counts| == |keys|
    ensures |r| == |keys|
    ensures forall i :: 0 <= i < |keys| ==> r[i] == (keys[i], NonNegative(counts[i]))
  {
    seq(|keys|, i requires 0 <= i < |keys| => (keys[i], NonNegative(counts[i])))
  }

  /** An array holding each key with the count 0, in order. */
  function Zeroed(keys: seq<string>): (r: Entries<int>)
    ensures |r| == |keys|
    ensures forall i :: 0 <= i < |keys| ==> r[i] == (keys[i], 0)
  {
    seq(|keys|, i requires 0 <= i < |keys| => (keys[i], 0))
  }

  /** `strpos($key, 'bill_') === 0`. */
  predicate IsBillKey(key: string)
  {
    StartsWith(key, "bill_")
  }

  /** `strpos($key, 'coin_') === 0`. */
  predicate IsCoinKey(key: string)
  {
    StartsWith(key, "coin_")
  }

  /** The entries of `all` whose key `pick` sends to `side`, in order. */
  function SelectBy(all: Entries<int>, pick: string -> bool, side: bool): (r: Entries<int>)
    ensures |r| <= |all|
  {
    if all == [] then []
    else (if pick(all[0].0) == side then [all[0]] else []) + SelectBy(all[1..], pick, side)
  }

  /** The entries of `all` whose key starts with `bill_` (or, for `false`, does not), in order. */
  function Select(all: Entries<int>, bill: bool): (r: Entries<int>)
    ensures |r| <= |all|
  {
    SelectBy(all, IsBillKey, bill)
  }

  /** `build`'s bills: the seven bill keys at 0, overridden by the builder's own entries. */
  function BuiltBills(bills: Entries<int>): Entries<int>
  {
    Merge(Zeroed(BillKeys()), bills)
  }

  /** `build`'s coins: the eight coin keys at 0, overridden by the builder's own entries. */
  function BuiltCoins(coins: Entries<int>): Entries<int>
  {
    Merge(Zeroed(CoinKeys()), coins)
  }

  class CashRegisterBuilder {
    var bills: Entries<int>
    var coins: Entries<int>

    /** Both arrays are PHP arrays: no key appears twice. */
    ghost predicate Valid()
      reads this
    {
      Unique(bills) && Unique(coins)
    }

    /** `new self()`: both arrays empty. */
    constructor ()
      ensures Valid() && bills == [] && coins == []
    {
      bills := [];
      coins := [];
    }

    /** `create`. */
    static method Create() returns (b: CashRegisterBuilder)
      ensures fresh(b) && b.Valid() && b.bills == [] && b.coins == []
    {
      b := new CashRegisterBuilder();
    }

    /**
     * `setBill500` .. `setCoin001`: the setter for table position `i` stores `max(0, count)`
     * under its key, in the bills for the seven bills and in the coins otherwise; the count of
     * every other key, and the other array, are unchanged.
     */
    method SetDenomination(i: nat, count: int)
      requires i < |Currency.Table| && Valid()
      modifies this
      ensures Valid()
      ensures i < Currency.BillCount ==>
        bills == Put(old(bills), Currency.Table[i].key, NonNegative(count)) && coins == old(coins)
      ensures i >= Currency.BillCount ==>
        coins == Put(old(coins), Currency.Table[i].key, NonNegative(count)) && bills == old(bills)
      ensures Find(if i < Currency.BillCount then bills else coins, Currency.Table[i].key) == Some(NonNegative(count))
      ensures forall k :: k != Currency.Table[i].key ==> Find(bills, k) == Find(old(bills), k) && Find(coins, k) == Find(old(coins), k)
    {
      var key := Currency.Table[i].key;
      if i < Currency.BillCount {
        bills := Put(bills, key, NonNegative(count));
      } else {
        coins := Put(coins, key, NonNegative(count));
      }
    }

    /** The fifteen setters called in table order on an empty builder, as `withDefaults` and `empty` do. */
    method SetEach(counts: seq<int>)
      requires |counts| == |Currency.Table| && bills == [] && coins == []
      modifies this
      ensures Valid()
      ensures bills == Filled(BillKeys(), counts[..Currency.BillCount])
      ensures coins == Filled(CoinKeys(), counts[Currency.BillCount..])
    {
      SetBills(counts);
      SetCoins(counts);
    }

    /** The seven bill setters, in table order, on an empty builder. */
    method SetBills(counts: seq<int>)
      requires |counts| == |Currency.Table| && bills == [] && coins == []
      modifies this
      ensures Valid() && coins == []
      ensures bills == Filled(BillKeys(), counts[..Currency.BillCount])
    {
      ghost var keys, wanted := BillKeys(), counts[..Currency.BillCount];
      KeyListsDistinct();
      for i := 0 to Currency.BillCount
        invariant Valid() && coins == []
        invariant bills == Filled(keys, wanted)[..i]
      {
        FillStep(keys, wanted, i, bills);
        assert keys[i] == Currency.Table[i].key && wanted[i] == counts[i];
        SetDenomination(i, counts[i]);
      }
      assert Filled(keys, wanted)[..Currency.BillCount] == Filled(keys, wanted);
    }

    /** The eight coin setters, in table order, on a builder without coins. */
    method SetCoins(counts: seq<int>)
      requires |counts| == |Currency.Table| && Valid() && coins == []
      modifies this
      ensures Valid() && bills == old(bills)
      ensures coins == Filled(CoinKeys(), counts[Currency.BillCount..])
    {
      ghost var keys, wanted := CoinKeys(), counts[Currency.BillCount..];
      KeyListsDistinct();
      for i := Currency.BillCount to |Currency.Table|
        invariant Valid() && bills == old(bills)
        invariant coins == Filled(keys, wanted)[..i - Currency.BillCount]
      {
        var n := i - Currency.BillCount;
        FillStep(keys, wanted, n, coins);
        assert keys[n] == Currency.Table[i].key && wanted[n] == counts[i];
        SetDenomination(i, counts[i]);
      }
      assert Filled(keys, wanted)[..|keys|] == Filled(keys, wanted);
    }

    /** `withDefaults`: the counts 1, 2, 2, 4, 1, 23, 0 for the bills and 34, 23, 23, 80, 12, 8, 45, 12 for the coins. */
    static method WithDefaults() returns (b: CashRegisterBuilder)
      ensures fresh(b) && b.Valid()
      ensures b.bills == Filled(BillKeys(), [1, 2, 2, 4, 1, 23, 0])
      ensures b.coins == Filled(CoinKeys(), [34, 23, 23, 80, 12, 8, 45, 12])
    {
      b := new CashRegisterBuilder();
      b.SetEach(DefaultCounts);
      assert DefaultCounts[..Currency.BillCount] == [1, 2, 2, 4, 1, 23, 0];
      assert DefaultCounts[Currency.BillCount..] == [34, 23, 23, 80, 12, 8, 45, 12];
    }

    /** `empty`: every standard key at 0. */
    static method Empty() returns (b: CashRegisterBuilder)
      ensures fresh(b) && b.Valid()
      ensures b.bills == Zeroed(BillKeys()) && b.coins == Zeroed(CoinKeys())
    {
      b := new CashRegisterBuilder();
      var zeros := seq(|Currency.Table|, _ => 0);
      b.SetEach(zeros);
    }

    /**
     * `fromState`: the snapshot's entries, those with a key starting with `bill_` into the bills
     * and every other one into the coins, each assigned in order.
     */
    static method FromState(state: CashRegisterState) returns (b: CashRegisterBuilder)
      ensures fresh(b) && b.Valid()
      ensures b.bills == Merge([], Select(state.GetAll(), true))
      ensures b.coins == Merge([], Select(state.GetAll(), false))
    {
      var bills, coins := Distribute(state.GetAll());
      b := new CashRegisterBuilder();
      b.bills, b.coins := bills, coins;
    }

    /** The loop of `fromState`: each entry assigned into the bills or into the coins by its prefix. */
    static method Distribute(all: Entries<int>) returns (bills: Entries<int>, coins: Entries<int>)
      ensures Unique(bills) && Unique(coins)
      ensures bills == Merge([], Select(all, true)) && coins == Merge([], Select(all, false))
    {
      bills, coins := [], [];
      for i := 0 to |all|
        invariant Unique(bills) && Unique(coins)
        invariant bills == Merge([], Select(all[..i], true))
        invariant coins == Merge([], Select(all[..i], false))
      {
        var key := all[i].0;
        var value := all[i].1;
        ghost var prefix := all[..i];
        assert all[..i + 1] == prefix + [all[i]];
        SelectSnoc(prefix, all[i], IsBillKey, true);
        SelectSnoc(prefix, all[i], IsBillKey, false);
        if IsBillKey(key) {
          MergeSnoc([], Select(prefix, true), all[i]);
          bills := Put(bills, key, value);
        } else {
          MergeSnoc([], Select(prefix, false), all[i]);
          coins := Put(coins, key, value);
        }
      }
      assert all[..|all|] == all;
    }

    /** `add`: (old count or 0) + count for a `bill_` or `coin_` key; any other key is ignored. */
    method Add(key: string, count: int)
      requires Valid()
      modifies this
      ensures Valid()
      ensures IsBillKey(key) ==> bills == Put(old(bills), key, GetOr(old(bills), key, 0) + count) && coins == old(coins)
      ensures !IsBillKey(key) && IsCoinKey(key) ==> coins == Put(old(coins), key, GetOr(old(coins), key, 0) + count) && bills == old(bills)
      ensures !IsBillKey(key) && !IsCoinKey(key) ==> bills == old(bills) && coins == old(coins)
      ensures forall k :: k != key ==> Find(bills, k) == Find(old(bills), k) && Find(coins, k) == Find(old(coins), k)
    {
      if IsBillKey(key) {
        bills := Put(bills, key, GetOr(bills, key, 0) + count);
      } else if IsCoinKey(key) {
        coins := Put(coins, key, GetOr(coins, key, 0) + count);
      }
    }

    /** `remove`: max(0, (old count or 0) - count) for a `bill_` or `coin_` key; any other key is ignored. */
    method Remove(key: string, count: int)
      requires Valid()
      modifies this
      ensures Valid()
      ensures IsBillKey(key) ==> bills == Put(old(bills), key, NonNegative(GetOr(old(bills), key, 0) - count)) && coins == old(coins)
      ensures !IsBillKey(key) && IsCoinKey(key) ==> coins == Put(old(coins), key, NonNegative(GetOr(old(coins), key, 0) - count)) && bills == old(bills)
      ensures !IsBillKey(key) && !IsCoinKey(key) ==> bills == old(bills) && coins == old(coins)
      ensures forall k :: k != key ==> Find(bills, k) == Find(old(bills), k) && Find(coins, k) == Find(old(coins), k)
    {
      if IsBillKey(key) {
        bills := Put(bills, key, NonNegative(GetOr(bills, key, 0) - count));
      } else if IsCoinKey(key) {
        coins := Put(coins, key, NonNegative(GetOr(coins, key, 0) - count));
      }
    }

    /** `resetBills`: the bills become the seven bill keys at 0; the coins are unchanged. */
    method ResetBills()
      requires Valid()
      modifies this
      ensures Valid() && bills == Zeroed(BillKeys()) && coins == old(coins)
    {
      Currency.KeysDistinct();
      bills := Zeroed(BillKeys());
    }

    /** `resetCoins`: the coins become the eight coin keys at 0; the bills are unchanged. */
    method ResetCoins()
      requires Valid()
      modifies this
      ensures Valid() && coins == Zeroed(CoinKeys()) && bills == old(bills)
    {
      Currency.KeysDistinct();
      coins := Zeroed(CoinKeys());
    }

    /** `build`: a snapshot of both arrays with every missing standard key filled in as 0. */
    method Build() returns (s: CashRegisterState)
      ensures fresh(s)
      ensures s.bills == BuiltBills(bills) && s.coins == BuiltCoins(coins)
      ensures s.Valid()
    {
      s := new CashRegisterState(BuiltBills(bills), BuiltCoins(coins));
    }
  }

  /** Selecting from an array with one more entry. */
  lemma {:induction false} SelectSnoc(all: Entries<int>, e: (string, int), pick: string -> bool, side: bool)
    ensures pick(e.0) == side ==> SelectBy(all + [e], pick, side) == SelectBy(all, pick, side) + [e]
    ensures pick(e.0) != side ==> SelectBy(all + [e], pick, side) == SelectBy(all, pick, side)
    decreases |all|
  {
    var last := if pick(e.0) == side then [e] else [];
    if all == [] {
      assert all + [e] == [e];
      SelectCons([e], pick, side);
      assert SelectBy([e], pick, side) == last + [];
    } else {
      var head := if pick(all[0].0) == side then [all[0]] else [];
      assert (all + [e])[0] == all[0] && (all + [e])[1..] == all[1..] + [e];
      SelectCons(all + [e], pick, side);
      SelectCons(all, pick, side);
      SelectSnoc(all[1..], e, pick, side);
      assert SelectBy(all + [e], pick, side) == head + (SelectBy(all[1..], pick, side) + last);
      assert head + (SelectBy(all[1..], pick, side) + last) == (head + SelectBy(all[1..], pick, side)) + last;
    }
  }

  /** Selecting from a non-empty array: its first entry when on the selected side, then the rest. */
  lemma {:induction false} SelectCons(all: Entries<int>, pick: string -> bool, side: bool)
    requires all != []
    ensures SelectBy(all, pick, side) == (if pick(all[0].0) == side then [all[0]] else []) + SelectBy(all[1..], pick, side)
  {
  }

  /** No key appears twice among the bill keys, nor among the coin keys. */
  lemma {:induction false} KeyListsDistinct()
    ensures forall p, q :: 0 <= p < q < |BillKeys()| ==> BillKeys()[p] != BillKeys()[q]
    ensures forall p, q :: 0 <= p < q < |CoinKeys()| ==> CoinKeys()[p] != CoinKeys()[q]
  {
    Currency.KeysDistinct();
  }

  /** Putting the next key of a filled prefix extends the prefix by one entry. */
  lemma {:induction false} FillStep(keys: seq<string>, counts: seq<int>, i: nat, a: Entries<int>)
    requires |counts| == |keys| && i < |keys|
    requires forall p, q :: 0 <= p < q < |keys| ==> keys[p] != keys[q]
    requires a == Filled(keys, counts)[..i]
    ensures Put(a, keys[i], NonNegative(counts[i])) == Filled(keys, counts)[..i + 1]
  {
    var f := Filled(keys, counts);
    forall j | 0 <= j < |a| ensures a[j].0 != keys[i] {
      assert a[j] == f[j];
    }
    PutAbsent(a, keys[i], NonNegative(counts[i]));
    assert f[..i + 1] == f[..i] + [f[i]];
  }

  /** array_merge with one more entry puts that entry last. */
  lemma {:induction false} MergeSnoc(a: Entries<int>, b: Entries<int>, e: (string, int))
    ensures Merge(a, b + [e]) == Put(Merge(a, b), e.0, e.1)
    decreases |b|
  {
    if b == [] {
      assert [] + [e] == [e];
    } else {
      assert (b + [e])[0] == b[0] && (b + [e])[1..] == b[1..] + [e];
      MergeSnoc(Put(a, b[0].0, b[0].1), b[1..], e);
    }
  }
  /** Selecting from a concatenation selects from each part. */
  lemma {:induction false} SelectAppend(a: Entries<int>, b: Entries<int>, pick: string -> bool, side: bool)
    ensures SelectBy(a + b, pick, side) == SelectBy(a, pick, side) + SelectBy(b, pick, side)
    decreases |a|
  {
    if a == [] {
      assert a + b == b;
    } else {
      var head := if pick(a[0].0) == side then [a[0]] else [];
      var rest := SelectBy(a[1..], pick, side);
      var tail := SelectBy(b, pick, side);
      assert (a + b)[0] == a[0] && (a + b)[1..] == a[1..] + b;
      calc {
        SelectBy(a + b, pick, side);
      == { SelectCons(a + b, pick, side); }
        head + SelectBy(a[1..] + b, pick, side);
      == { SelectAppend(a[1..], b, pick, side); }
        head + (rest + tail);
      == { assert head + (rest + tail) == (head + rest) + tail; }
        (head + rest) + tail;
      == { SelectCons(a, pick, side); }
        SelectBy(a, pick, side) + tail;
      }
    }
  }

  /** Selecting keeps everything when every key is on the selected side, nothing when none is. */
  lemma {:induction false} SelectWhole(all: Entries<int>, pick: string -> bool, side: bool)
    ensures (forall i :: 0 <= i < |all| ==> pick(all[i].0) == side) ==> SelectBy(all, pick, side) == all
    ensures (forall i :: 0 <= i < |all| ==> pick(all[i].0) != side) ==> SelectBy(all, pick, side) == []
    decreases |all|
  {
    if all != [] {
      assert forall i :: 0 <= i < |all[1..]| ==> all[1..][i] == all[i + 1];
      SelectWhole(all[1..], pick, side);
    }
  }

  /** The keys of `Zeroed(keys)` are `keys`, and a listed key finds 0. */
  lemma {:induction false} ZeroedFacts(keys: seq<string>)
    ensures KeysOf(Zeroed(keys)) == keys
    ensures forall k :: Find(Zeroed(keys), k) == if k in keys then Some(0) else None
  {
    var z := Zeroed(keys);
    assert KeysOf(z) == keys;
    forall k ensures Find(z, k) == if k in keys then Some(0) else None {
      var r := Find(z, k);
      if r.Some? {
        var i :| 0 <= i < |z| && z[i] == (k, r.value);
      }
    }
  }

  /**
   * `build` fills in: the standard keys come first, in table order, and every key finds the
   * builder's own count when the builder holds it, 0 when it is a standard key the builder does
   * not hold, and nothing otherwise.
   */
  lemma {:induction false} BuildFills(bills: Entries<int>, coins: Entries<int>)
    requires Unique(bills) && Unique(coins)
    ensures |BuiltBills(bills)| >= Currency.BillCount && KeysOf(BuiltBills(bills))[..Currency.BillCount] == BillKeys()
    ensures |BuiltCoins(coins)| >= |CoinKeys()| && KeysOf(BuiltCoins(coins))[..|CoinKeys()|] == CoinKeys()
    ensures forall k :: Find(BuiltBills(bills), k)
                          == if k in KeysOf(bills) then Find(bills, k) else if k in BillKeys() then Some(0) else None
    ensures forall k :: Find(BuiltCoins(coins), k)
                          == if k in KeysOf(coins) then Find(coins, k) else if k in CoinKeys() then Some(0) else None
  {
    ZeroedFacts(BillKeys());
    ZeroedFacts(CoinKeys());
    MergeKeepsKeys(Zeroed(BillKeys()), bills);
    MergeKeepsKeys(Zeroed(CoinKeys()), coins);
    forall k ensures Find(BuiltBills(bills), k) ==
      if k in KeysOf(bills) then Find(bills, k) else if k in BillKeys() then Some(0) else None
    {
      MergeFind(Zeroed(BillKeys()), bills, k);
    }
    forall k ensures Find(BuiltCoins(coins), k) ==
      if k in KeysOf(coins) then Find(coins, k) else if k in CoinKeys() then Some(0) else None
    {
      MergeFind(Zeroed(CoinKeys()), coins, k);
    }
  }

  /**
   * `build` changes nothing in a builder that already holds exactly the standard keys in table
   * order, as `withDefaults` and `empty` leave it.
   */
  lemma {:induction false} BuildStandard(bills: Entries<int>, coins: Entries<int>)
    requires Standard(bills, coins)
    ensures BuiltBills(bills) == bills && BuiltCoins(coins) == coins
  {
    StandardUnique(bills, coins);
    ZeroedFacts(BillKeys());
    ZeroedFacts(CoinKeys());
    MergeOverwrite(Zeroed(BillKeys()), bills);
    MergeOverwrite(Zeroed(CoinKeys()), coins);
  }

  /** Neither part of a standard snapshot repeats a key. */
  lemma {:induction false} StandardUnique(bills: Entries<int>, coins: Entries<int>)
    requires Standard(bills, coins)
    ensures Unique(bills) && Unique(coins)
  {
    StandardKeys(bills, coins);
    var all := bills + coins;
    forall i, j | 0 <= i < j < |bills| ensures bills[i].0 != bills[j].0 {
      assert all[i] == bills[i] && all[j] == bills[j];
    }
    forall i, j | 0 <= i < j < |coins| ensures coins[i].0 != coins[j].0 {
      assert all[|bills| + i] == coins[i] && all[|bills| + j] == coins[j];
    }
  }

  /** `withDefaults()->build()` and `empty()->build()` hold exactly what the builder set. */
  lemma {:induction false} BuildDefaults()
    ensures var bills := Filled(BillKeys(), [1, 2, 2, 4, 1, 23, 0]);
      var coins := Filled(CoinKeys(), [34, 23, 23, 80, 12, 8, 45, 12]);
      BuiltBills(bills) == bills && BuiltCoins(coins) == coins
    ensures BuiltBills(Zeroed(BillKeys())) == Zeroed(BillKeys()) && BuiltCoins(Zeroed(CoinKeys())) == Zeroed(CoinKeys())
  {
    var bills := Filled(BillKeys(), [1, 2, 2, 4, 1, 23, 0]);
    var coins := Filled(CoinKeys(), [34, 23, 23, 80, 12, 8, 45, 12]);
    assert KeysOf(bills) == BillKeys() && KeysOf(coins) == CoinKeys();
    BuildStandard(bills, coins);
    ZeroedFacts(BillKeys());
    ZeroedFacts(CoinKeys());
    BuildStandard(Zeroed(BillKeys()), Zeroed(CoinKeys()));
  }

  /** The bills of a standard snapshot carry "bill_" keys and its coins do not. */
  lemma {:induction false} StandardSides(bills: Entries<int>, coins: Entries<int>)
    requires Standard(bills, coins)
    ensures forall i :: 0 <= i < |bills| ==> IsBillKey(bills[i].0)
    ensures forall i :: 0 <= i < |coins| ==> !IsBillKey(coins[i].0)
  {
    StandardKeys(bills, coins);
    Currency.KeyPrefixes();
    var all := bills + coins;
    forall i | 0 <= i < |bills| ensures IsBillKey(bills[i].0) {
      assert all[i] == bills[i];
    }
    forall i | 0 <= i < |coins| ensures !IsBillKey(coins[i].0) {
      assert all[|bills| + i] == coins[i];
      CoinIsNotBill(coins[i].0);
    }
  }

  /** A "coin_" key is not a "bill_" key. */
  lemma {:induction false} CoinIsNotBill(key: string)
    requires IsCoinKey(key)
    ensures !IsBillKey(key)
  {
    assert key[0] == key[..5][0] == 'c';
  }

  /** Splitting a standard snapshot's bills followed by its coins by prefix gives back both parts. */
  lemma {:induction false} SelectStandard(bills: Entries<int>, coins: Entries<int>)
    requires Standard(bills, coins)
    ensures Select(bills + coins, true) == bills && Select(bills + coins, false) == coins
  {
    StandardSides(bills, coins);
    SelectAppend(bills, coins, IsBillKey, true);
    SelectAppend(bills, coins, IsBillKey, false);
    SelectWhole(bills, IsBillKey, true);
    SelectWhole(bills, IsBillKey, false);
    SelectWhole(coins, IsBillKey, true);
    SelectWhole(coins, IsBillKey, false);
    assert Select(bills + coins, true) == bills + [];
    assert Select(bills + coins, false) == [] + coins;
  }

  /**
   * Round trip: for a snapshot holding the standard keys in table order, `fromState` splits its
   * `getAll()` back into its bills and its coins, and `build` gives them back unchanged.
   */
  lemma {:induction false} FromStateBuild(bills: Entries<int>, coins: Entries<int>)
    requires Standard(bills, coins)
    ensures Merge([], Select(Merge(bills, coins), true)) == bills
    ensures Merge([], Select(Merge(bills, coins), false)) == coins
    ensures BuiltBills(bills) == bills && BuiltCoins(coins) == coins
  {
    StandardGetAll(bills, coins);
    SelectStandard(bills, coins);
    StandardUnique(bills, coins);
    BuildStandard(bills, coins);
    MergeDisjoint([], bills);
    MergeDisjoint([], coins);
    assert [] + bills == bills && [] + coins == coins;
  }
}
