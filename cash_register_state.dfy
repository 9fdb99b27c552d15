/**
 * The immutable register snapshot of app/Entities/CashRegisterState.php: bill counts, coin
 * counts and the total, computed once by the constructor. Counts are arrays keyed by
 * denomination key; the total is kept in cents.
 */
module RegisterState {
  import opened Wrappers
  import opened Assoc
  import opened ChangeMath
  import Currency

  /** The seven bill keys, in table order. */
  function BillKeys(): (ks: seq<string>)
    ensures |ks| == Currency.BillCount
    ensures forall i :: 0 <= i < |ks| ==> ks[i] == Currency.Table[i].key
  {
    Currency.ColumnsMatch();
    Currency.Keys()[..Currency.BillCount]
  }

  /** The eight coin keys, in table order. */
  function CoinKeys(): (ks: seq<string>)
    ensures |ks| == |Currency.Table| - Currency.BillCount
    ensures forall i :: 0 <= i < |ks| ==> ks[i] == Currency.Table[Currency.BillCount + i].key
  {
    Currency.ColumnsMatch();
    Currency.Keys()[Currency.BillCount..]
  }

  /** What one entry adds to the total: its cents times its count, or nothing for an unknown key. */
  function EntryCents(values: Entries<int>, entry: (string, int)): int
  {
    match Find(values, entry.0)
    case Some(cents) => cents * entry.1
    case None => 0
  }

  /** The register total in cents: every entry whose key `values` knows, valued at its cents. */
  function Total(all: Entries<int>, values: Entries<int>): int
  {
    if all == [] then 0 else EntryCents(values, all[0]) + Total(all[1..], values)
  }

  /** `[$k => $data[$k] ?? 0, ...]` for the given keys. */
  function Read(data: Entries<int>, keys: seq<string>): (r: Entries<int>)
    ensures |r| == |keys|
    ensures forall i :: 0 <= i < |keys| ==> r[i] == (keys[i], GetOr(data, keys[i], 0))
  {
    seq(|keys|, i requires 0 <= i < |keys| => (keys[i], GetOr(data, keys[i], 0)))
  }

  class CashRegisterState {
    const bills: Entries<int>
    const coins: Entries<int>
    const totalCents: int

    /** The stored total is what `calculateTotal` gives for the stored arrays. */
    ghost predicate Valid()
      reads this
    {
      totalCents == Total(Merge(bills, coins), Currency.ValueTable())
    }

    /** `__construct`: stores both arrays and computes the total once. */
    constructor (bills: Entries<int>, coins: Entries<int>)
      ensures this.bills == bills && this.coins == coins
      ensures Valid()
    {
      var values := Currency.GetValues();
      var total := CalculateTotal(Merge(bills, coins), values);
      this.bills := bills;
      this.coins := coins;
      totalCents := total;
    }

    function GetBills(): Entries<int>
    {
      bills
    }

    function GetCoins(): Entries<int>
    {
      coins
    }

    /** `getAll`: `array_merge($bills, $coins)`. */
    function GetAll(): Entries<int>
    {
      Merge(bills, coins)
    }

    /** `getTotalAmount`, in cents. */
    function GetTotalCents(): int
    {
      totalCents
    }

    /** `toArray`: the same array as `getAll`. */
    function ToArray(): Entries<int>
    {
      GetAll()
    }

    /** `calculateTotal`: the loop over `getAll()` that adds cents times count for known keys. */
    static method CalculateTotal(all: Entries<int>, values: Entries<int>) returns (total: int)
      ensures total == Total(all, values)
    {
      total := 0;
      for i := 0 to |all|
        invariant total + Total(all[i..], values) == Total(all, values)
      {
        assert all[i..][1..] == all[i + 1..];
        var key := all[i].0;
        var count := all[i].1;
        var found := Find(values, key);
        if found.Some? {
          total := total + found.value * count;
        }
      }
      assert all[|all|..] == [];
    }

    /** `fromArray`: the fifteen standard keys read from `data`, missing ones as 0. */
    static method FromArray(data: Entries<int>) returns (s: CashRegisterState)
      ensures fresh(s)
      ensures s.bills == Read(data, BillKeys()) && s.coins == Read(data, CoinKeys())
      ensures s.Valid() && s.totalCents == Worth(ValuesOf(s.bills + s.coins), Currency.Cents())
    {
      s := new CashRegisterState(Read(data, BillKeys()), Read(data, CoinKeys()));
      FromArrayStandard(data);
      StandardTotal(s.bills, s.coins);
    }
  }

  /** Totals add up over concatenation. */
  lemma {:induction false} TotalAppend(a: Entries<int>, b: Entries<int>, values: Entries<int>)
    ensures Total(a + b, values) == Total(a, values) + Total(b, values)
  {
    if a != [] {
      assert (a + b)[0] == a[0] && (a + b)[1..] == a[1..] + b;
      TotalAppend(a[1..], b, values);
    } else {
      assert a + b == b;
    }
  }

  /** An entry whose key the value table does not know adds nothing to the total. */
  lemma {:induction false} TotalIgnoresUnknown(all: Entries<int>, values: Entries<int>, key: string, count: int)
    requires key !in KeysOf(values)
    ensures Total(all + [(key, count)], values) == Total(all, values)
  {
    TotalAppend(all, [(key, count)], values);
  }

  /** When each key is valued at `cents[i]`, the total is the worth of the counts over `cents`. */
  lemma {:induction false} TotalIsWorth(all: Entries<int>, values: Entries<int>, cents: seq<int>)
    requires |cents| == |all|
    requires forall i :: 0 <= i < |all| ==> Find(values, all[i].0) == Some(cents[i])
    ensures Total(all, values) == Worth(ValuesOf(all), cents)
  {
    if all != [] {
      assert ValuesOf(all)[1..] == ValuesOf(all[1..]);
      assert forall i :: 0 <= i < |all[1..]| ==> all[1..][i] == all[i + 1];
      TotalIsWorth(all[1..], values, cents[1..]);
    }
  }

  /** A snapshot holding exactly the seven bill keys and the eight coin keys, in table order. */
  ghost predicate Standard(bills: Entries<int>, coins: Entries<int>)
  {
    KeysOf(bills) == BillKeys() && KeysOf(coins) == CoinKeys()
  }

  /** The keys of a standard snapshot, bills then coins, are the table's keys. */
  lemma {:induction false} StandardKeys(bills: Entries<int>, coins: Entries<int>)
    requires Standard(bills, coins)
    ensures |bills + coins| == |Currency.Table|
    ensures forall i :: 0 <= i < |Currency.Table| ==> (bills + coins)[i].0 == Currency.Table[i].key
    ensures Unique(bills + coins)
  {
    Currency.KeysDistinct();
    var all := bills + coins;
    forall i | 0 <= i < |Currency.Table| ensures all[i].0 == Currency.Table[i].key {
      if i < |bills| {
        assert KeysOf(bills)[i] == bills[i].0;
      } else {
        assert KeysOf(coins)[i - |bills|] == coins[i - |bills|].0;
      }
    }
  }

  /** `getAll` of a standard snapshot is the bills followed by the coins. */
  lemma {:induction false} StandardGetAll(bills: Entries<int>, coins: Entries<int>)
    requires Standard(bills, coins)
    ensures Merge(bills, coins) == bills + coins
  {
    StandardKeys(bills, coins);
    var all := bills + coins;
    assert Unique(coins) by {
      forall i, j | 0 <= i < j < |coins| ensures coins[i].0 != coins[j].0 {
        assert all[|bills| + i] == coins[i] && all[|bills| + j] == coins[j];
      }
    }
    forall j | 0 <= j < |coins| ensures coins[j].0 !in KeysOf(bills) {
      assert all[|bills| + j] == coins[j];
      forall i | 0 <= i < |bills| ensures KeysOf(bills)[i] != coins[j].0 {
        assert all[i] == bills[i];
      }
    }
    MergeDisjoint(bills, coins);
  }

  /**
   * The total of a standard snapshot is the worth of its counts over the table's cents, as the
   * change engine counts it.
   */
  lemma {:induction false} StandardTotal(bills: Entries<int>, coins: Entries<int>)
    requires Standard(bills, coins)
    ensures Total(Merge(bills, coins), Currency.ValueTable()) == Worth(ValuesOf(bills + coins), Currency.Cents())
  {
    StandardGetAll(bills, coins);
    StandardKeys(bills, coins);
    Currency.ValueTableFacts();
    Currency.ColumnsMatch();
    var all := bills + coins;
    forall i | 0 <= i < |all| ensures Find(Currency.ValueTable(), all[i].0) == Some(Currency.Cents()[i]) {
      FindUnique(Currency.ValueTable(), i);
    }
    TotalIsWorth(all, Currency.ValueTable(), Currency.Cents());
  }

  /** `fromArray` yields exactly the fifteen standard keys, each read from `data` or 0. */
  lemma {:induction false} FromArrayStandard(data: Entries<int>)
    ensures Standard(Read(data, BillKeys()), Read(data, CoinKeys()))
  {
  }

  /** Reading the keys of a run of entries back from an array without repeated keys gives the run. */
  lemma {:induction false} ReadRun(all: Entries<int>, run: Entries<int>, offset: nat)
    requires Unique(all) && offset + |run| <= |all|
    requires forall i :: 0 <= i < |run| ==> all[offset + i] == run[i]
    ensures Read(all, KeysOf(run)) == run
  {
    var keys := KeysOf(run);
    var r := Read(all, keys);
    forall i | 0 <= i < |run| ensures r[i] == run[i] {
      FindUnique(all, offset + i);
      assert keys[i] == all[offset + i].0;
      assert GetOr(all, keys[i], 0) == run[i].1;
    }
    assert r == run;
  }

  /** Round trip: `fromArray(s.toArray())` has the counts of a standard snapshot `s`. */
  lemma {:induction false} RoundTrip(bills: Entries<int>, coins: Entries<int>)
    requires Standard(bills, coins)
    ensures Read(Merge(bills, coins), BillKeys()) == bills
    ensures Read(Merge(bills, coins), CoinKeys()) == coins
  {
    var all := bills + coins;
    assert Merge(bills, coins) == all by {
      StandardGetAll(bills, coins);
    }
    assert Unique(all) by {
      StandardKeys(bills, coins);
    }
    assert forall i :: 0 <= i < |bills| ==> all[0 + i] == bills[i];
    assert forall i :: 0 <= i < |coins| ==> all[|bills| + i] == coins[i];
    ReadRun(all, bills, 0);
    ReadRun(all, coins, |bills|);
  }
}
