/**
 * The fixed denomination table of app/Models/Currency.php: fifteen notes and coins, largest
 * first, each with its key, its face value in cents ("centimes") and its label.
 */
module Currency {
  import opened Wrappers
  import opened Assoc
  import opened Strs

  datatype Denomination = Denomination(key: string, cents: int, labelText: string)

  const Table: seq<Denomination> := [
    Denomination("bill_500", 50000, "Billet de 500€"),
    Denomination("bill_200", 20000, "Billet de 200€"),
    Denomination("bill_100", 10000, "Billet de 100€"),
    Denomination("bill_50", 5000, "Billet de 50€"),
    Denomination("bill_20", 2000, "Billet de 20€"),
    Denomination("bill_10", 1000, "Billet de 10€"),
    Denomination("bill_5", 500, "Billet de 5€"),
    Denomination("coin_2", 200, "Pièce de 2€"),
    Denomination("coin_1", 100, "Pièce de 1€"),
    Denomination("coin_050", 50, "Pièce de 0,50€"),
    Denomination("coin_020", 20, "Pièce de 0,20€"),
    Denomination("coin_010", 10, "Pièce de 0,10€"),
    Denomination("coin_005", 5, "Pièce de 0,05€"),
    Denomination("coin_002", 2, "Pièce de 0,02€"),
    Denomination("coin_001", 1, "Pièce de 0,01€")
  ]

  /** Number of denominations. */
  const Size: nat := 15

  /** Number of bill denominations; the rest are coins. */
  const BillCount: nat := 7

  /** The `centimes` column, position by position. */
  function Cents(): seq<int>
  {
    seq(|Table|, i requires 0 <= i < |Table| => Table[i].cents)
  }

  /** The key column, position by position. */
  function Keys(): seq<string>
  {
    seq(|Table|, i requires 0 <= i < |Table| => Table[i].key)
  }

  /** `Currency::getConfig()`. */
  function GetConfig(): seq<Denomination>
  {
    Table
  }

  lemma {:induction false} TableSize()
    ensures |Table| == Size && |Cents()| == Size && |Keys()| == Size
  {
  }

  /** The two columns, unfolded position by position. */
  lemma {:induction false} ColumnsMatch()
    ensures |Cents()| == |Table| && |Keys()| == |Table|
    ensures forall i :: 0 <= i < |Table| ==> Cents()[i] == Table[i].cents && Keys()[i] == Table[i].key
  {
  }

  lemma {:induction false} CentsStrictlyDecrease()
    ensures forall i, j :: 0 <= i < j < |Table| ==> Table[i].cents > Table[j].cents
    ensures Table[0].cents == 50000 && Table[|Table| - 1].cents == 1
  {
  }

  lemma {:induction false} CentsPositive()
    ensures forall i :: 0 <= i < |Table| ==> Table[i].cents > 0
  {
  }

  lemma {:induction false} KeysDistinct()
    ensures forall i, j :: 0 <= i < j < |Table| ==> Table[i].key != Table[j].key
  {
  }

  lemma {:induction false} KeyPrefixes()
    ensures forall i :: 0 <= i < BillCount ==> StartsWith(Table[i].key, "bill_")
    ensures forall i :: BillCount <= i < |Table| ==> StartsWith(Table[i].key, "coin_")
  {
  }

  /** Position of `key` in the table, if it is one of the fifteen keys. */
  function IndexOf(key: string): (r: Option<nat>)
    ensures r.Some? ==> r.value < |Table| && Table[r.value].key == key
    ensures r.None? <==> forall i :: 0 <= i < |Table| ==> Table[i].key != key
  {
    IndexFrom(key, 0)
  }

  function IndexFrom(key: string, i: nat): (r: Option<nat>)
    requires i <= |Table|
    ensures r.Some? ==> i <= r.value < |Table| && Table[r.value].key == key
    ensures r.None? <==> forall j :: i <= j < |Table| ==> Table[j].key != key
    decreases |Table| - i
  {
    if i == |Table| then None
    else if Table[i].key == key then Some(i)
    else IndexFrom(key, i + 1)
  }

  /** The position of a table key is found again from the key. */
  lemma {:induction false} IndexOfKey(i: nat)
    requires i < |Table|
    ensures IndexOf(Table[i].key) == Some(i)
  {
    KeysDistinct();
  }

  /** `Currency::get($key)`: the entry for a known key, null (None) for any other string. */
  function Get(key: string): (r: Option<Denomination>)
    ensures r.Some? <==> exists i :: 0 <= i < |Table| && Table[i].key == key
    ensures r.Some? ==> r.value in Table && r.value.key == key
  {
    match IndexOf(key)
    case Some(i) => Some(Table[i])
    case None => None
  }

  /** The key-to-cents array, in table order. */
  function ValueTable(): (v: Entries<int>)
    ensures |v| == |Table|
    ensures forall i :: 0 <= i < |Table| ==> v[i] == (Table[i].key, Table[i].cents)
  {
    seq(|Table|, i requires 0 <= i < |Table| => (Table[i].key, Table[i].cents))
  }

  /** What the change engine relies on: distinct keys, positive cents strictly decreasing to 1. */
  lemma {:induction false} ValueTableFacts()
    ensures Unique(ValueTable())
    ensures forall i :: 0 <= i < |Table| ==> ValueTable()[i].1 > 0
    ensures forall i, j :: 0 <= i < j < |Table| ==> ValueTable()[i].1 > ValueTable()[j].1
    ensures ValueTable()[|Table| - 1].1 == 1
  {
    KeysDistinct();
    CentsStrictlyDecrease();
    CentsPositive();
  }

  /** The key-to-label array, in table order. */
  function LabelTable(): (l: Entries<string>)
    ensures |l| == |Table|
    ensures forall i :: 0 <= i < |Table| ==> l[i] == (Table[i].key, Table[i].labelText)
  {
    seq(|Table|, i requires 0 <= i < |Table| => (Table[i].key, Table[i].labelText))
  }

  /** The label array has the table's distinct keys. */
  lemma {:induction false} LabelTableUnique()
    ensures Unique(LabelTable())
  {
    KeysDistinct();
  }

  /** `Currency::getValues()`: the same keys, in table order, each mapped to its cents. */
  method GetValues() returns (values: Entries<int>)
    ensures values == ValueTable()
    ensures forall i :: 0 <= i < |Table| ==> values[i] == (Table[i].key, Table[i].cents)
  {
    ghost var t := ValueTable();
    ValueTableFacts();
    values := [];
    for i := 0 to |Table|
      invariant values == t[..i]
    {
      PutNext(t, i, values);
      values := Put(values, Table[i].key, Table[i].cents);
    }
    assert t[..|Table|] == t;
  }

  /** `Currency::getLabels()`: the same keys, in table order, each mapped to its label. */
  method GetLabels() returns (labels: Entries<string>)
    ensures labels == LabelTable()
    ensures forall i :: 0 <= i < |Table| ==> labels[i] == (Table[i].key, Table[i].labelText)
  {
    ghost var t := LabelTable();
    LabelTableUnique();
    labels := [];
    for i := 0 to |Table|
      invariant labels == t[..i]
    {
      PutNext(t, i, labels);
      labels := Put(labels, Table[i].key, Table[i].labelText);
    }
    assert t[..|Table|] == t;
  }
}
