/**
 * The invoice entity of app/Entities/Invoice.php: an immutable record built once, its number
 * format, its conversion from and to a database row, the change-detail rows of its HTML view
 * and its private key-to-cents and key-to-label lookups. Amounts are PHP floats, modelled as
 * reals; the clock, the random generator, JSON decoding and date parsing and formatting are
 * parameters.
 */
module InvoiceEntity {
  import opened Wrappers
  import opened Assoc
  import Currency

  /** A `\DateTime`, to the second. */
  datatype DateTime = DateTime(year: int, month: int, day: int, hour: int, minute: int, second: int)

  datatype Invoice = Invoice(
    id: int,
    transactionId: int,
    invoiceNumber: string,
    amountDue: real,
    amountGiven: real,
    amountReturned: real,
    changeReturned: Entries<int>,
    invoiceDate: DateTime,
    userId: int,
    userEmail: Option<string>,
    status: string)

  /** `change_returned` in a row: a JSON text (from the database) or an already decoded array. */
  datatype ChangeField = Encoded(json: string) | Decoded(counts: Entries<int>)

  /** `invoice_date` in a row: a `\DateTime` object or a date text. */
  datatype DateField = DateObject(date: DateTime) | DateText(text: string)

  /**
   * The array `fromArray` reads and `toArray` writes. `userEmail` and `status` are None when the
   * key is missing or null.
   */
  datatype Row = Row(
    id: int,
    transactionId: int,
    invoiceNumber: string,
    amountDue: real,
    amountGiven: real,
    amountReturned: real,
    changeReturned: ChangeField,
    invoiceDate: DateField,
    userId: int,
    userEmail: Option<string>,
    status: Option<string>)

  /** The constructor's default status, also used by `fromArray`. */
  const DefaultStatus: string := "pending"

  // ---------------------------------------------------------------- invoice number

  function Digit(d: nat): char
    requires d < 10
  {
    "0123456789"[d]
  }

  predicate IsDigits(s: string)
  {
    forall i :: 0 <= i < |s| ==> '0' <= s[i] <= '9'
  }

  /** The decimal text of `n`, without leading zeros. */
  function Decimal(n: nat): (s: string)
    ensures |s| >= 1 && IsDigits(s)
  {
    if n < 10 then [Digit(n)] else Decimal(n / 10) + [Digit(n % 10)]
  }

  /** The number a digit text denotes. */
  function DigitsValue(s: string): nat
    requires IsDigits(s)
  {
    if s == [] then 0 else DigitsValue(s[..|s| - 1]) * 10 + (s[|s| - 1] as int - '0' as int)
  }

  function Pow10(k: nat): nat
  {
    if k == 0 then 1 else 10 * Pow10(k - 1)
  }

  /** `str_pad($s, $width, $pad, STR_PAD_LEFT)`: never truncates. */
  function PadLeft(s: string, width: nat, pad: char): (r: string)
    ensures |r| == if |s| >= width then |s| else width
    ensures r[|r| - |s|..] == s
    ensures forall i :: 0 <= i < |r| - |s| ==> r[i] == pad
  {
    if |s| >= width then s else seq(width - |s|, _ => pad) + s
  }

  /**
   * `generateInvoiceNumber`: "INV-" + the date as `Ymd` + "-" + the random number padded to six
   * digits. The date text and the random number are parameters.
   */
  function InvoiceNumber(date: string, random: nat): string
  {
    "INV-" + date + "-" + PadLeft(Decimal(random), 6, '0')
  }

  lemma {:induction false} DecimalLength(n: nat, k: nat)
    requires k >= 1 && n < Pow10(k)
    ensures |Decimal(n)| <= k
  {
    if n >= 10 {
      DecimalLength(n / 10, k - 1);
    }
  }

  lemma {:induction false} DecimalValue(n: nat)
    ensures DigitsValue(Decimal(n)) == n
  {
    var s := Decimal(n);
    if n < 10 {
      assert s[..0] == [];
    } else {
      assert s[..|s| - 1] == Decimal(n / 10);
      DecimalValue(n / 10);
    }
  }

  /** Leading zeros do not change the value of a digit text. */
  lemma {:induction false} LeadingZeros(z: string, s: string)
    requires IsDigits(s) && forall i :: 0 <= i < |z| ==> z[i] == '0'
    ensures IsDigits(z + s) && DigitsValue(z + s) == DigitsValue(s)
    decreases |s|
  {
    if s == [] {
      assert z + s == z;
      Zeros(z);
    } else {
      assert (z + s)[..|z + s| - 1] == z + s[..|s| - 1];
      LeadingZeros(z, s[..|s| - 1]);
    }
  }

  lemma {:induction false} Zeros(z: string)
    requires forall i :: 0 <= i < |z| ==> z[i] == '0'
    ensures IsDigits(z) && DigitsValue(z) == 0
  {
    if z != [] {
      Zeros(z[..|z| - 1]);
    }
  }

  /**
   * The format INV-YYYYMMDD-XXXXXX: for an eight-character date and a number in 0..999999 the
   * invoice number has 19 characters, holds the date at positions 4..11, and its last six
   * characters are digits that read back as the number.
   */
  lemma {:induction false} InvoiceNumberFormat(date: string, random: nat)
    requires |date| == 8 && random <= 999999
    ensures var s := InvoiceNumber(date, random);
      && |s| == 19
      && s[..4] == "INV-" && s[4..12] == date && s[12] == '-'
      && IsDigits(s[13..]) && DigitsValue(s[13..]) == random
  {
    PaddedNumber(random);
    NumberLayout(date, PadLeft(Decimal(random), 6, '0'));
  }

  /** Where the prefix, the date, the dash and the six-character number sit in the text. */
  lemma {:induction false} NumberLayout(date: string, p: string)
    requires |date| == 8 && |p| == 6
    ensures var s := "INV-" + date + "-" + p;
      |s| == 19 && s[..4] == "INV-" && s[4..12] == date && s[12] == '-' && s[13..] == p
  {
    var head := "INV-" + date + "-";
    var s := head + p;
    assert s[13..] == p;
    assert s[..13] == head;
    assert s[..4] == head[..4] == "INV-";
    assert s[4..12] == head[4..12] == date;
  }

  /** The random part: six digits that read back as the number. */
  lemma {:induction false} PaddedNumber(random: nat)
    requires random <= 999999
    ensures var p := PadLeft(Decimal(random), 6, '0');
      |p| == 6 && IsDigits(p) && DigitsValue(p) == random
  {
    assert Pow10(6) == 1000000;
    DecimalLength(random, 6);
    var d := Decimal(random);
    var p := PadLeft(d, 6, '0');
    assert p == p[..|p| - |d|] + d;
    LeadingZeros(p[..|p| - |d|], d);
    DecimalValue(random);
  }

  // ---------------------------------------------------------------- fromArray / toArray

  /** `fromArray`; `decode` is `json_decode(..., true)` and `parse` is `new \DateTime(...)`. */
  function FromArray(data: Row, decode: string -> Entries<int>, parse: string -> DateTime): (inv: Invoice)
    ensures inv.status == (if data.status.Some? then data.status.value else DefaultStatus)
    ensures inv.userEmail == data.userEmail
    ensures inv.changeReturned == match data.changeReturned
      case Encoded(json) => decode(json)
      case Decoded(counts) => counts
  {
    Invoice(
      data.id,
      data.transactionId,
      data.invoiceNumber,
      data.amountDue,
      data.amountGiven,
      data.amountReturned,
      match data.changeReturned
        case Encoded(json) => decode(json)
        case Decoded(counts) => counts,
      match data.invoiceDate
        case DateObject(date) => date
        case DateText(text) => parse(text),
      data.userId,
      data.userEmail,
      if data.status.Some? then data.status.value else DefaultStatus)
  }

  /** `toArray`: all eleven fields, the change unchanged and the date formatted by `format`. */
  function ToArray(inv: Invoice, format: DateTime -> string): (r: Row)
    ensures r.changeReturned == Decoded(inv.changeReturned)
    ensures r.status == Some(inv.status)
  {
    Row(
      inv.id,
      inv.transactionId,
      inv.invoiceNumber,
      inv.amountDue,
      inv.amountGiven,
      inv.amountReturned,
      Decoded(inv.changeReturned),
      DateText(format(inv.invoiceDate)),
      inv.userId,
      inv.userEmail,
      Some(inv.status))
  }

  /**
   * Round trip: `fromArray(toArray())` is the same invoice whenever parsing the formatted date
   * gives the date back; the change is not re-decoded because `toArray` keeps it an array.
   */
  lemma {:induction false} ArrayRoundTrip(inv: Invoice, format: DateTime -> string, decode: string -> Entries<int>, parse: string -> DateTime)
    requires parse(format(inv.invoiceDate)) == inv.invoiceDate
    ensures FromArray(ToArray(inv, format), decode, parse) == inv
  {
  }

  /**
   * The other direction: `toArray(fromArray(row))` is the row with the defaults filled in, the
   * change decoded and the date formatted; a row that `toArray` wrote is reproduced exactly when
   * formatting the parsed date gives the text back.
   */
  lemma {:induction false} RowRoundTrip(data: Row, format: DateTime -> string, decode: string -> Entries<int>, parse: string -> DateTime)
    requires data.status.Some? && data.changeReturned.Decoded? && data.invoiceDate.DateText?
    requires format(parse(data.invoiceDate.text)) == data.invoiceDate.text
    ensures ToArray(FromArray(data, decode, parse), format) == data
  {
  }

  // ---------------------------------------------------------------- lookups

  /** The key-to-cents table of `getCurrencyValue`. */
  const InvoiceValues: Entries<int> := [
    ("bill_500", 50000), ("bill_200", 20000), ("bill_100", 10000),
    ("bill_50", 5000), ("bill_20", 2000), ("bill_10", 1000), ("bill_5", 500),
    ("coin_2", 200), ("coin_1", 100), ("coin_050", 50), ("coin_020", 20),
    ("coin_010", 10), ("coin_005", 5), ("coin_002", 2), ("coin_001", 1)]

  /** The key-to-label table of `getCurrencyLabel`; its texts are not those of the Currency table. */
  const InvoiceLabels: Entries<string> := [
    ("bill_500", "Billet 500€"), ("bill_200", "Billet 200€"), ("bill_100", "Billet 100€"),
    ("bill_50", "Billet 50€"), ("bill_20", "Billet 20€"), ("bill_10", "Billet 10€"),
    ("bill_5", "Billet 5€"), ("coin_2", "Pièce 2€"), ("coin_1", "Pièce 1€"),
    ("coin_050", "Pièce 0,50€"), ("coin_020", "Pièce 0,20€"), ("coin_010", "Pièce 0,10€"),
    ("coin_005", "Pièce 0,05€"), ("coin_002", "Pièce 0,02€"), ("coin_001", "Pièce 0,01€")]

  /** `getCurrencyValue`: `$values[$key] ?? 0`. */
  function CurrencyValue(key: string): int
  {
    GetOr(InvoiceValues, key, 0)
  }

  /** `getCurrencyLabel`: `$labels[$key] ?? $key`. */
  function CurrencyLabel(key: string): string
  {
    GetOr(InvoiceLabels, key, key)
  }

  /** A table keyed like the Currency table: the fifteen keys, in table order. */
  ghost predicate KeyedLikeCurrency<V>(t: Entries<V>)
  {
    |t| == |Currency.Table| && forall i :: 0 <= i < |t| ==> t[i].0 == Currency.Table[i].key
  }

  /**
   * A lookup `$t[$key] ?? $default` in a table keyed like the Currency table finds the entry at
   * the key's table position for a known key, and the default for any other key.
   */
  lemma {:induction false} LookupKeyedLikeCurrency<V>(t: Entries<V>, key: string, default: V)
    requires KeyedLikeCurrency(t)
    ensures Currency.Get(key).None? ==> GetOr(t, key, default) == default
    ensures Currency.IndexOf(key).Some? ==> GetOr(t, key, default) == t[Currency.IndexOf(key).value].1
  {
    Currency.KeysDistinct();
    match Currency.IndexOf(key)
    case Some(i) => {
      assert Unique(t);
      FindUnique(t, i);
    }
    case None => {
      assert forall i :: 0 <= i < |t| ==> KeysOf(t)[i] != key;
    }
  }

  /** Both private tables are keyed like the Currency table, and the cents are the Currency cents. */
  lemma {:induction false} InvoiceTablesFacts()
    ensures KeyedLikeCurrency(InvoiceValues) && KeyedLikeCurrency(InvoiceLabels)
    ensures forall i :: 0 <= i < |InvoiceValues| ==> InvoiceValues[i].1 == Currency.Table[i].cents
  {
  }

  /** The value table is the Currency table's key-to-cents array, entry for entry. */
  lemma {:induction false} InvoiceValuesAreCurrency()
    ensures InvoiceValues == Currency.ValueTable()
  {
    InvoiceTablesFacts();
    assert forall i :: 0 <= i < |InvoiceValues| ==> InvoiceValues[i] == Currency.ValueTable()[i];
  }

  /** `getCurrencyValue` is the cents of `Currency::get($key)`, and 0 for a key it does not know. */
  lemma {:induction false} CurrencyValueIsCurrency(key: string)
    ensures CurrencyValue(key) == match Currency.Get(key)
      case Some(d) => d.cents
      case None => 0
  {
    InvoiceTablesFacts();
    LookupKeyedLikeCurrency(InvoiceValues, key, 0);
  }

  /**
   * `getCurrencyLabel` gives the key itself for a key the Currency table does not know, and the
   * private table's own text (not the Currency label) at the key's table position otherwise.
   */
  lemma {:induction false} CurrencyLabelFacts(key: string)
    ensures Currency.Get(key).None? ==> CurrencyLabel(key) == key
    ensures Currency.IndexOf(key).Some? ==> CurrencyLabel(key) == InvoiceLabels[Currency.IndexOf(key).value].1
  {
    InvoiceTablesFacts();
    LookupKeyedLikeCurrency(InvoiceLabels, key, key);
  }

  // ---------------------------------------------------------------- toHtml rows

  /** One row of the change-detail table: label, value in cents, quantity and line total in cents. */
  datatype ChangeRow = ChangeRow(labelText: string, valueCents: int, quantity: int, totalCents: int)

  /** The row of one change entry, with the value looked up in `values` (0 if absent) and the label in `labels` (the key if absent). */
  function RowOf(values: Entries<int>, labels: Entries<string>, entry: (string, int)): ChangeRow
  {
    var value := GetOr(values, entry.0, 0);
    ChangeRow(GetOr(labels, entry.0, entry.0), value, entry.1, value * entry.1)
  }

  /** The rows `toHtml` emits: one per entry of the change with a quantity > 0, in order. */
  function Rows(values: Entries<int>, labels: Entries<string>, change: Entries<int>): seq<ChangeRow>
  {
    if change == [] then []
    else (if change[0].1 > 0 then [RowOf(values, labels, change[0])] else []) + Rows(values, labels, change[1..])
  }

  /**
   * The `foreach` of `toHtml` (lines 244-257), collecting rows instead of HTML text; `values` and
   * `labels` are the two private tables (InvoiceValues, InvoiceLabels).
   */
  method ChangeRows(values: Entries<int>, labels: Entries<string>, change: Entries<int>) returns (rows: seq<ChangeRow>)
    ensures rows == Rows(values, labels, change)
  {
    rows := [];
    for i := 0 to |change|
      invariant rows + Rows(values, labels, change[i..]) == Rows(values, labels, change)
    {
      RowsStep(values, labels, change, i);
      ghost var before := rows;
      var key := change[i].0;
      var quantity := change[i].1;
      if quantity > 0 {
        var value := GetOr(values, key, 0);
        var labelText := GetOr(labels, key, key);
        var total := value * quantity;
        rows := rows + [ChangeRow(labelText, value, quantity, total)];
        assert rows == before + [RowOf(values, labels, change[i])];
      }
      RowsShift(before, rows, if quantity > 0 then [RowOf(values, labels, change[i])] else [],
                Rows(values, labels, change[i + 1..]));
    }
    assert change[|change|..] == [];
  }

  /** The rows from position `i`: the row of entry `i` when its quantity is positive, then the rest. */
  lemma {:induction false} RowsStep(values: Entries<int>, labels: Entries<string>, change: Entries<int>, i: nat)
    requires i < |change|
    ensures Rows(values, labels, change[i..])
         == (if change[i].1 > 0 then [RowOf(values, labels, change[i])] else []) + Rows(values, labels, change[i + 1..])
  {
    assert change[i..][0] == change[i] && change[i..][1..] == change[i + 1..];
  }

  /** Moving the next rows from the pending part to the collected part keeps the whole. */
  lemma {:induction false} RowsShift(before: seq<ChangeRow>, after: seq<ChangeRow>, step: seq<ChangeRow>, rest: seq<ChangeRow>)
    requires after == before + step
    ensures after + rest == before + (step + rest)
  {
  }

  /** Rows of a concatenation are the rows of each part. */
  lemma {:induction false} RowsAppend(values: Entries<int>, labels: Entries<string>, a: Entries<int>, b: Entries<int>)
    ensures Rows(values, labels, a + b) == Rows(values, labels, a) + Rows(values, labels, b)
    decreases |a|
  {
    if a == [] {
      assert a + b == b;
    } else {
      assert (a + b)[0] == a[0] && (a + b)[1..] == a[1..] + b;
      RowsAppend(values, labels, a[1..], b);
    }
  }

  /**
   * Exactly the entries with a positive quantity get a row: every row comes from such an entry,
   * and every such entry has its row.
   */
  lemma {:induction false} RowsAreThePositive(values: Entries<int>, labels: Entries<string>, change: Entries<int>)
    ensures forall r :: r in Rows(values, labels, change) ==>
      r.quantity > 0 && exists e :: e in change && e.1 > 0 && r == RowOf(values, labels, e)
    ensures forall i :: 0 <= i < |change| && change[i].1 > 0 ==> RowOf(values, labels, change[i]) in Rows(values, labels, change)
    ensures |Rows(values, labels, change)| <= |change|
  {
    if change != [] {
      var rest := Rows(values, labels, change[1..]);
      RowsAreThePositive(values, labels, change[1..]);
      forall i | 0 < i < |change| && change[i].1 > 0 ensures RowOf(values, labels, change[i]) in Rows(values, labels, change) {
        assert change[1..][i - 1] == change[i];
      }
      forall r | r in rest ensures exists e :: e in change && e.1 > 0 && r == RowOf(values, labels, e) {
        var e :| e in change[1..] && e.1 > 0 && r == RowOf(values, labels, e);
        assert e in change;
      }
    }
  }

  /** For the invoice's own tables, the row of a known key carries its Currency cents, and its total is cents times quantity. */
  lemma {:induction false} InvoiceRowValue(entry: (string, int))
    ensures var r := RowOf(InvoiceValues, InvoiceLabels, entry);
      r.valueCents == (match Currency.Get(entry.0) case Some(d) => d.cents case None => 0)
      && r.totalCents == r.valueCents * entry.1
      && (Currency.Get(entry.0).None? ==> r.labelText == entry.0)
  {
    CurrencyValueIsCurrency(entry.0);
    CurrencyLabelFacts(entry.0);
  }
}
