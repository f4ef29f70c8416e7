/** The batch report script (outputReports.py): three loaders that join the manufacturer, price
    and service-date lists into one dictionary of items, and the four reports written from it. */
module Reports {
  import opened Base
  import opened Text
  import opened Dates
  import opened OrderedStore
  import opened Sorting
  import opened Join

  /** An `Item` as the dictionary's values yield it: its id and its record. The condition is true
      exactly for a damaged item; the service date stays the raw text of the service-date list,
      which only the past-service report parses. */
  type Item = Entry<bool, string>

  /** The dictionary `items_dict`, keyed by item id. */
  type Inventory = Store<Record<bool, string>>

  /** What loading can raise: a row too short for a field it reads (IndexError), or a price
      that `float()` rejects (ValueError). */
  datatype LoadError = MissingField(source: Source, row: nat) | BadPrice(row: nat)

  /** What a report can raise on the joined data. */
  datatype ReportError =
    | MissingServiceDate(id: string)    // `strptime(None, ...)`: TypeError
    | BadServiceDate(id: string)        // text that is not month/day/year: ValueError
    | IncomparablePrices                // sorting prices when one of them is None: TypeError

  // ---------------------------------------------------------------------------------------
  // Loading
  // ---------------------------------------------------------------------------------------

  predicate HasFields(row: Row, n: nat) {
    |row| >= n
  }

  predicate AllHaveFields(rows: seq<Row>, n: nat) {
    forall i :: 0 <= i < |rows| ==> HasFields(rows[i], n)
  }

  /** The condition read from a manufacturer row: damaged exactly when a fourth field exists and
      lowers to "damaged". */
  predicate IsDamagedRow(row: Row) {
    |row| > 3 && Lower(row[3]) == "damaged"
  }

  /** The item a manufacturer row creates; price and service date start absent. */
  function ItemOf(row: Row): Item
    requires HasFields(row, 3)
  {
    (row[0], Record(row[1], row[2], IsDamagedRow(row), None, None))
  }

  function ItemEntries(rows: seq<Row>): (r: seq<Item>)
    requires AllHaveFields(rows, 3)
    ensures |r| == |rows| && forall i :: 0 <= i < |rows| ==> r[i] == ItemOf(rows[i])
  {
    seq(|rows|, i requires 0 <= i < |rows| => ItemOf(rows[i]))
  }

  /** `read_csv_file`: one item per manufacturer row, a later row with the same id replacing the
      earlier item. A row with fewer than three fields raises. */
  function ReadItems(rows: seq<Row>): (r: Result<Inventory, LoadError>)
    ensures r.Ok? <==> AllHaveFields(rows, 3)
    ensures r.Ok? ==> Valid(r.value)
    ensures r.Err? ==> (r.error.MissingField? && r.error.source == ManufacturerList
      && r.error.row < |rows| && !HasFields(rows[r.error.row], 3)
      && AllHaveFields(rows[..r.error.row], 3))
  {
    match FirstFailing(rows, row => HasFields(row, 3))
    case Some(i) =>
      assert forall j :: 0 <= j < i ==> rows[..i][j] == rows[j];
      Err(MissingField(ManufacturerList, i))
    case None => Ok(PutAll(Empty(), ItemEntries(rows)))
  }

  /** The dictionary `read_csv_file` builds holds the ids of the rows in first-occurrence order;
      each id maps to the item made from its last row: manufacturer and type from that row,
      damaged by its fourth field, price and service date absent. */
  lemma ReadItemsSpec(rows: seq<Row>)
    requires AllHaveFields(rows, 3)
    ensures ReadItems(rows).value.keys == FirstOccurrences(Ids(ItemEntries(rows)))
    ensures forall i :: 0 <= i < |rows| && LastFor(ItemEntries(rows), i) ==>
      rows[i][0] in ReadItems(rows).value.vals &&
      ReadItems(rows).value.vals[rows[i][0]] == Record(rows[i][1], rows[i][2], IsDamagedRow(rows[i]), None, None)
  {
    PutAllKeys(Empty(), ItemEntries(rows));
    PutAllValues(Empty(), ItemEntries(rows));
    assert Empty<Record<bool, string>>().keys + Ids(ItemEntries(rows)) == Ids(ItemEntries(rows));
  }

  /** A price row can be read: it has a second field and `float()` accepts it. */
  predicate PriceRowReadable(parse: string -> Option<Price>, row: Row) {
    HasFields(row, 2) && parse(row[1]).Some?
  }

  predicate AllPricesReadable(rows: seq<Row>, parse: string -> Option<Price>) {
    forall i :: 0 <= i < |rows| ==> PriceRowReadable(parse, rows[i])
  }

  function PriceEntries(rows: seq<Row>, parse: string -> Option<Price>): (r: seq<(string, Price)>)
    requires AllPricesReadable(rows, parse)
    ensures |r| == |rows| && forall i :: 0 <= i < |rows| ==> r[i] == (rows[i][0], parse(rows[i][1]).value)
  {
    seq(|rows|, i requires 0 <= i < |rows| && HasFields(rows[i], 2) && parse(rows[i][1]).Some? => (rows[i][0], parse(rows[i][1]).value))
  }

  /** `read_price_list`: every row's price is parsed, even a row whose id is unknown; a known id
      gets the price and an unknown one is skipped. */
  function ReadPrices(inv: Inventory, rows: seq<Row>, parse: string -> Option<Price>): (r: Result<Inventory, LoadError>)
    requires Valid(inv)
    ensures r.Ok? <==> AllPricesReadable(rows, parse)
    ensures r.Ok? ==> Valid(r.value) && r.value.keys == inv.keys && r.value.vals.Keys == inv.vals.Keys
    ensures r.Err? ==> exists i :: (0 <= i < |rows| && !PriceRowReadable(parse, rows[i]) &&
      (forall j :: 0 <= j < i ==> PriceRowReadable(parse, rows[j])) &&
      r.error == (if HasFields(rows[i], 2) then BadPrice(i) else MissingField(PriceList, i)))
  {
    match FirstFailing(rows, row => PriceRowReadable(parse, row))
    case Some(i) => if HasFields(rows[i], 2) then Err(BadPrice(i)) else Err(MissingField(PriceList, i))
    case None => Ok(SetPrices(inv, PriceEntries(rows, parse)))
  }

  function DateEntries(rows: seq<Row>): (r: seq<(string, string)>)
    requires AllHaveFields(rows, 2)
    ensures |r| == |rows| && forall i :: 0 <= i < |rows| ==> r[i] == (rows[i][0], rows[i][1])
  {
    seq(|rows|, i requires 0 <= i < |rows| && HasFields(rows[i], 2) => (rows[i][0], rows[i][1]))
  }

  /** `read_service_dates`: a known id gets the service date text as written; an unknown one is
      skipped. */
  function ReadServiceDates(inv: Inventory, rows: seq<Row>): (r: Result<Inventory, LoadError>)
    requires Valid(inv)
    ensures r.Ok? <==> AllHaveFields(rows, 2)
    ensures r.Ok? ==> Valid(r.value) && r.value.keys == inv.keys && r.value.vals.Keys == inv.vals.Keys
    ensures r.Err? ==> (r.error.MissingField? && r.error.source == ServiceDatesList
      && r.error.row < |rows| && !HasFields(rows[r.error.row], 2)
      && AllHaveFields(rows[..r.error.row], 2))
  {
    match FirstFailing(rows, row => HasFields(row, 2))
    case Some(i) =>
      assert forall j :: 0 <= j < i ==> rows[..i][j] == rows[j];
      Err(MissingField(ServiceDatesList, i))
    case None => Ok(SetDates(inv, DateEntries(rows)))
  }

  /** Loading prices only touches prices of ids already in the dictionary: a named id gets the
      price of its last row, every other item is unchanged, and no id is added. */
  lemma ReadPricesSpec(inv: Inventory, rows: seq<Row>, parse: string -> Option<Price>)
    requires Valid(inv) && AllPricesReadable(rows, parse)
    ensures forall i :: 0 <= i < |rows| && LastFor(PriceEntries(rows, parse), i) && rows[i][0] in inv.vals ==>
      ReadPrices(inv, rows, parse).value.vals[rows[i][0]] == inv.vals[rows[i][0]].(price := parse(rows[i][1]))
    ensures forall k :: k in inv.vals && k !in Ids(PriceEntries(rows, parse)) ==>
      ReadPrices(inv, rows, parse).value.vals[k] == inv.vals[k]
  {
    SetPricesSpec(inv, PriceEntries(rows, parse));
  }

  /** Loading service dates only touches service dates of ids already in the dictionary. */
  lemma ReadServiceDatesSpec(inv: Inventory, rows: seq<Row>)
    requires Valid(inv) && AllHaveFields(rows, 2)
    ensures forall i :: 0 <= i < |rows| && LastFor(DateEntries(rows), i) && rows[i][0] in inv.vals ==>
      ReadServiceDates(inv, rows).value.vals[rows[i][0]] == inv.vals[rows[i][0]].(serviceDate := Some(rows[i][1]))
    ensures forall k :: k in inv.vals && k !in Ids(DateEntries(rows)) ==>
      ReadServiceDates(inv, rows).value.vals[k] == inv.vals[k]
  {
    SetDatesSpec(inv, DateEntries(rows));
  }

  // ---------------------------------------------------------------------------------------
  // Report rows
  // ---------------------------------------------------------------------------------------

  /** A CSV cell as `csv.writer` receives it; `None` is written as an empty cell. */
  datatype Cell = Str(text: string) | Num(amount: Price) | Blank

  /** One output file: its name, its header row and its data rows. */
  datatype Table = Table(fileName: string, header: seq<string>, rows: seq<seq<Cell>>)

  function PriceCell(p: Option<Price>): Cell {
    match p
    case Some(v) => Num(v)
    case None => Blank
  }

  function DateCell(d: Option<string>): Cell {
    match d
    case Some(t) => Str(t)
    case None => Blank
  }

  /** The condition column: "damaged" for a damaged item, empty otherwise. */
  function ConditionLabel(damaged: bool): (r: string)
    ensures r == "damaged" <==> damaged
    ensures r == "" <==> !damaged
  {
    if damaged then "damaged" else ""
  }

  const SixColumns: seq<string> := ["Item ID", "Manufacturer", "Item Type", "Price", "Service Date", "Condition"]
  const TypeColumns: seq<string> := ["Item ID", "Manufacturer", "Price", "Service Date", "Condition"]
  const DamagedColumns: seq<string> := ["Item ID", "Manufacturer", "Item Type", "Price", "Service Date"]

  /** A row of the full and the past-service reports. */
  function FullRow(it: Item): (r: seq<Cell>)
    ensures |r| == |SixColumns|
    ensures r[0] == Str(it.0) && r[1] == Str(it.1.manufacturer) && r[2] == Str(it.1.itemType)
    ensures r[3] == PriceCell(it.1.price) && r[4] == DateCell(it.1.serviceDate)
    ensures r[5] == Str("damaged") <==> it.1.condition
  {
    [Str(it.0), Str(it.1.manufacturer), Str(it.1.itemType), PriceCell(it.1.price),
     DateCell(it.1.serviceDate), Str(ConditionLabel(it.1.condition))]
  }

  /** A row of a per-type report: the type column is left out, it names the file instead. */
  function TypeRow(it: Item): (r: seq<Cell>)
    ensures |r| == |TypeColumns|
    ensures r[0] == Str(it.0) && r[1] == Str(it.1.manufacturer)
    ensures r[2] == PriceCell(it.1.price) && r[3] == DateCell(it.1.serviceDate)
    ensures r[4] == Str("damaged") <==> it.1.condition
  {
    [Str(it.0), Str(it.1.manufacturer), PriceCell(it.1.price), DateCell(it.1.serviceDate),
     Str(ConditionLabel(it.1.condition))]
  }

  /** A row of the damaged report: no condition column, every item in it is damaged. */
  function DamagedRow(it: Item): (r: seq<Cell>)
    ensures |r| == |DamagedColumns|
    ensures r[0] == Str(it.0) && r[1] == Str(it.1.manufacturer) && r[2] == Str(it.1.itemType)
    ensures r[3] == PriceCell(it.1.price) && r[4] == DateCell(it.1.serviceDate)
  {
    [Str(it.0), Str(it.1.manufacturer), Str(it.1.itemType), PriceCell(it.1.price), DateCell(it.1.serviceDate)]
  }

  function MapRows(items: seq<Item>, f: Item -> seq<Cell>): (r: seq<seq<Cell>>)
    ensures |r| == |items| && forall i :: 0 <= i < |items| ==> r[i] == f(items[i])
  {
    seq(|items|, i requires 0 <= i < |items| => f(items[i]))
  }

  // ---------------------------------------------------------------------------------------
  // Full inventory, sorted by manufacturer
  // ---------------------------------------------------------------------------------------

  /** The key comparison of `sorted_by_manufacturer`. */
  predicate ByManufacturer(a: Item, b: Item) {
    StrLe(a.1.manufacturer, b.1.manufacturer)
  }

  lemma ByManufacturerIsPreorder()
    ensures TotalPreorder(ByManufacturer)
  {
    forall a: Item, b: Item
      ensures ByManufacturer(a, b) || ByManufacturer(b, a)
    {
      StrLeTotal(a.1.manufacturer, b.1.manufacturer);
    }
    forall a: Item, b: Item, c: Item | ByManufacturer(a, b) && ByManufacturer(b, c)
      ensures ByManufacturer(a, c)
    {
      StrLeTransitive(a.1.manufacturer, b.1.manufacturer, c.1.manufacturer);
    }
  }

  /** Two items tie under the manufacturer key exactly when their manufacturers are the same text. */
  lemma ManufacturerTies(a: Item, b: Item)
    ensures Tied(ByManufacturer, a, b) <==> a.1.manufacturer == b.1.manufacturer
  {
    if Tied(ByManufacturer, a, b) {
      StrLeAntisymmetric(a.1.manufacturer, b.1.manufacturer);
    } else if a.1.manufacturer == b.1.manufacturer {
      StrLeTotal(a.1.manufacturer, a.1.manufacturer);
    }
  }

  /** The order of the full report: every item once, manufacturers non-decreasing under Python's
      case-sensitive string order, items of one manufacturer in dictionary order. */
  function FullOrder(inv: Inventory): (r: seq<Item>)
    requires Valid(inv)
    ensures multiset(r) == multiset(Entries(inv))
    ensures forall i, j :: 0 <= i < j < |r| ==> StrLe(r[i].1.manufacturer, r[j].1.manufacturer)
    ensures Stable(r, Entries(inv), ByManufacturer)
  {
    ByManufacturerIsPreorder();
    SortBy(Entries(inv), ByManufacturer)
  }

  /** `full_inventory_report`: FullInventory.csv, six columns, one row per item in manufacturer order. */
  function FullReport(inv: Inventory): (r: Table)
    requires Valid(inv)
    ensures r.fileName == "FullInventory.csv" && r.header == SixColumns
    ensures |r.rows| == |inv.keys|
    ensures forall i :: 0 <= i < |r.rows| ==> r.rows[i] == FullRow(FullOrder(inv)[i])
  {
    var order := FullOrder(inv);
    assert |order| == |Entries(inv)| by {
      assert |multiset(order)| == |multiset(Entries(inv))|;
    }
    Table("FullInventory.csv", SixColumns, MapRows(order, FullRow))
  }

  /** Every item of the dictionary appears in the full report, and in one row only. */
  lemma FullReportCoversEveryItem(inv: Inventory)
    requires Valid(inv)
    ensures forall k :: k in inv.vals ==> (k, inv.vals[k]) in FullOrder(inv)
    ensures forall i, j :: 0 <= i < j < |FullOrder(inv)| ==> FullOrder(inv)[i].0 != FullOrder(inv)[j].0
  {
    PermutedEntries(inv, FullOrder(inv));
  }

  // ---------------------------------------------------------------------------------------
  // Per-type inventories, each sorted by item id
  // ---------------------------------------------------------------------------------------

  /** The items of one exact type, in their order. */
  function OfType(items: seq<Item>, t: string): (r: seq<Item>)
    ensures forall i :: 0 <= i < |r| ==> r[i] in items && r[i].1.itemType == t
    ensures forall i :: 0 <= i < |items| && items[i].1.itemType == t ==> items[i] in r
    decreases |items|
  {
    if |items| == 0 then []
    else
      var last := items[|items| - 1];
      OfType(items[..|items| - 1], t) + (if last.1.itemType == t then [last] else [])
  }

  function Types(items: seq<Item>): (r: seq<string>)
    ensures |r| == |items| && forall i :: 0 <= i < |items| ==> r[i] == items[i].1.itemType
  {
    seq(|items|, i requires 0 <= i < |items| => items[i].1.itemType)
  }

  /** The `item_types` dictionary: each item appended to the list of its exact type. */
  function GroupByType(items: seq<Item>): (r: Store<seq<Item>>)
    ensures Valid(r)
    decreases |items|
  {
    if |items| == 0 then Empty()
    else
      var g := GroupByType(items[..|items| - 1]);
      var x := items[|items| - 1];
      var t := x.1.itemType;
      Put(g, t, (if t in g.vals then g.vals[t] else []) + [x])
  }

  /** The grouping partitions the items by exact type: one group per distinct type, in the order
      the types first occur, each holding exactly the items of its type in their original order,
      so no group is empty and every item is in the group of its own type and in no other. */
  lemma GroupByTypeSpec(items: seq<Item>)
    ensures GroupByType(items).keys == FirstOccurrences(Types(items))
    ensures forall t :: t in GroupByType(items).vals ==> GroupByType(items).vals[t] == OfType(items, t)
    ensures forall t :: t in GroupByType(items).vals ==> |GroupByType(items).vals[t]| > 0
  {
    GroupByTypeKeys(items);
    GroupByTypeValues(items);
    forall t | t in GroupByType(items).vals
      ensures |OfType(items, t)| > 0
    {
      var i :| 0 <= i < |items| && Types(items)[i] == t;
      assert items[i] in OfType(items, t);
    }
  }

  lemma {:induction false} GroupByTypeKeys(items: seq<Item>)
    ensures GroupByType(items).keys == FirstOccurrences(Types(items))
    decreases |items|
  {
    if |items| > 0 {
      var front := items[..|items| - 1];
      var x := items[|items| - 1];
      GroupByTypeKeys(front);
      assert Types(items) == Types(front) + [x.1.itemType];
      FirstOccurrencesSnoc(Types(front), x.1.itemType);
    }
  }

  /** A type no item has has no items. */
  lemma OfAbsentType(items: seq<Item>, t: string)
    requires t !in Types(items)
    ensures OfType(items, t) == []
  {
  }

  lemma {:induction false} GroupByTypeValues(items: seq<Item>)
    ensures forall t :: t in GroupByType(items).vals ==> GroupByType(items).vals[t] == OfType(items, t)
    decreases |items|
  {
    if |items| > 0 {
      var front := items[..|items| - 1];
      var x := items[|items| - 1];
      var tx := x.1.itemType;
      GroupByTypeValues(front);
      var g' := GroupByType(front);
      if tx !in g'.vals {
        GroupByTypeKeys(front);
        OfAbsentType(front, tx);
      }
      assert GroupByType(items).vals[tx] == OfType(items, tx);
      forall t | t in GroupByType(items).vals && t != tx
        ensures GroupByType(items).vals[t] == OfType(items, t)
      {
        assert OfType(items, t) == OfType(front, t);
      }
    }
  }

  /** The key comparison of `sorted_by_item_id`. */
  predicate ById(a: Item, b: Item) {
    StrLe(a.0, b.0)
  }

  lemma ByIdIsPreorder()
    ensures TotalPreorder(ById)
  {
    forall a: Item, b: Item
      ensures ById(a, b) || ById(b, a)
    {
      StrLeTotal(a.0, b.0);
    }
    forall a: Item, b: Item, c: Item | ById(a, b) && ById(b, c)
      ensures ById(a, c)
    {
      StrLeTransitive(a.0, b.0, c.0);
    }
  }

  /** The order of one per-type report: the items of type `t`, ids non-decreasing. */
  function TypeOrder(inv: Inventory, t: string): (r: seq<Item>)
    requires Valid(inv)
    ensures multiset(r) == multiset(OfType(Entries(inv), t))
    ensures forall i :: 0 <= i < |r| ==> r[i].1.itemType == t
    ensures forall i, j :: 0 <= i < j < |r| ==> StrLe(r[i].0, r[j].0)
  {
    ByIdIsPreorder();
    var r := SortBy(OfType(Entries(inv), t), ById);
    assert forall i :: 0 <= i < |r| ==> r[i] in multiset(OfType(Entries(inv), t));
    r
  }

  /** `item_type_inventory_report`: one file `<type>Inventory.csv` per distinct type, in the order
      the types first occur, five columns without the type. */
  function TypeReports(inv: Inventory): (r: seq<Table>)
    requires Valid(inv)
    ensures |r| == |GroupByType(Entries(inv)).keys|
    ensures forall i :: 0 <= i < |r| ==>
      var t := GroupByType(Entries(inv)).keys[i];
      && r[i].fileName == t + "Inventory.csv"
      && r[i].header == TypeColumns
      && r[i].rows == MapRows(TypeOrder(inv, t), TypeRow)
  {
    var types := GroupByType(Entries(inv)).keys;
    seq(|types|, i requires 0 <= i < |types| =>
      Table(types[i] + "Inventory.csv", TypeColumns, MapRows(TypeOrder(inv, types[i]), TypeRow)))
  }

  /** The per-type files cover the dictionary: one file per distinct type, and every item is
      listed in the file of its own type. */
  lemma TypeReportsPartition(inv: Inventory)
    requires Valid(inv)
    ensures forall it :: it in Entries(inv) ==> it.1.itemType in GroupByType(Entries(inv)).keys
    ensures forall it :: it in Entries(inv) ==> it in multiset(TypeOrder(inv, it.1.itemType))
    ensures forall t :: t in GroupByType(Entries(inv)).keys ==> |TypeOrder(inv, t)| > 0
    ensures Distinct(GroupByType(Entries(inv)).keys)
  {
    var e := Entries(inv);
    GroupByTypeSpec(e);
    forall it | it in e
      ensures it.1.itemType in GroupByType(e).keys
      ensures it in multiset(TypeOrder(inv, it.1.itemType))
    {
      var i :| 0 <= i < |e| && e[i] == it;
      assert Types(e)[i] == it.1.itemType;
    }
    forall t | t in GroupByType(e).keys
      ensures |TypeOrder(inv, t)| > 0
    {
      assert |multiset(TypeOrder(inv, t))| == |multiset(OfType(e, t))|;
    }
  }

  // ---------------------------------------------------------------------------------------
  // Past service date inventory, oldest first
  // ---------------------------------------------------------------------------------------

  /** The service date an item's text parses to. Only consulted once every item's date has
      parsed; the fixed date returned otherwise is never compared. */
  function DateKey(parse: string -> Option<Date>, it: Item): (r: Date)
    ensures DateReadable(parse, it) ==> r == parse(it.1.serviceDate.value).value
  {
    match it.1.serviceDate
    case None => Date(0, 0, 0)
    case Some(text) =>
      match parse(text)
      case None => Date(0, 0, 0)
      case Some(d) => d
  }

  predicate DateReadable(parse: string -> Option<Date>, it: Item) {
    it.1.serviceDate.Some? && parse(it.1.serviceDate.value).Some?
  }

  /** The key comparison of `sorted_by_service_date`. */
  function ByDate(parse: string -> Option<Date>): (Item, Item) -> bool {
    (a: Item, b: Item) => DateLe(DateKey(parse, a), DateKey(parse, b))
  }

  lemma ByDateIsPreorder(parse: string -> Option<Date>)
    ensures TotalPreorder(ByDate(parse))
  {
    DateLeTotalOrder();
  }

  function IsPastDue(parse: string -> Option<Date>, today: Instant): Item -> bool {
    (it: Item) => PastDue(DateKey(parse, it), today)
  }

  /** The order of the past-service report: the items due before `today`, dates non-decreasing. */
  function PastServiceOrder(items: seq<Item>, parse: string -> Option<Date>, today: Instant): (r: seq<Item>)
    ensures multiset(r) == multiset(Filter(items, IsPastDue(parse, today)))
    ensures Sorted(r, ByDate(parse))
  {
    ByDateIsPreorder(parse);
    SortBy(Filter(items, IsPastDue(parse, today)), ByDate(parse))
  }

  /** `past_service_date_inventory_report`: raises on the first item whose service date is absent
      or does not parse; otherwise PastServiceDateInventory.csv in past-service order. */
  function PastServiceReport(inv: Inventory, parse: string -> Option<Date>, today: Instant): (r: Result<Table, ReportError>)
    requires Valid(inv)
    ensures r.Ok? <==> forall i :: 0 <= i < |inv.keys| ==> DateReadable(parse, Entries(inv)[i])
    ensures r.Err? ==> exists i :: (0 <= i < |inv.keys| && !DateReadable(parse, Entries(inv)[i]) &&
      (forall j :: 0 <= j < i ==> DateReadable(parse, Entries(inv)[j])) &&
      r.error == (if Entries(inv)[i].1.serviceDate.None? then MissingServiceDate(Entries(inv)[i].0)
                  else BadServiceDate(Entries(inv)[i].0)))
    ensures r.Ok? ==> (r.value.fileName == "PastServiceDateInventory.csv" && r.value.header == SixColumns
      && r.value.rows == MapRows(PastServiceOrder(Entries(inv), parse, today), FullRow))
  {
    var items := Entries(inv);
    match FirstFailing(items, it => DateReadable(parse, it))
    case Some(i) =>
      if items[i].1.serviceDate.None? then Err(MissingServiceDate(items[i].0)) else Err(BadServiceDate(items[i].0))
    case None =>
      Ok(Table("PastServiceDateInventory.csv", SixColumns, MapRows(PastServiceOrder(items, parse, today), FullRow)))
  }

  /** With every date readable, the past-service order holds exactly the items whose parsed date
      is past due, and each of them has a readable date. */
  lemma PastDueMembers(e: seq<Item>, parse: string -> Option<Date>, today: Instant)
    requires forall i :: 0 <= i < |e| ==> DateReadable(parse, e[i])
    ensures forall it :: it in PastServiceOrder(e, parse, today) <==> it in e && PastDue(DateKey(parse, it), today)
    ensures forall it :: it in PastServiceOrder(e, parse, today) ==> DateReadable(parse, it)
  {
    var r := PastServiceOrder(e, parse, today);
    PermutedFilterMembers(r, e, IsPastDue(parse, today));
    forall it
      ensures it in r <==> it in e && PastDue(DateKey(parse, it), today)
      ensures it in r ==> DateReadable(parse, it)
    {
      assert IsPastDue(parse, today)(it) == PastDue(DateKey(parse, it), today);
      if it in e {
        var i :| 0 <= i < |e| && e[i] == it;
        assert DateReadable(parse, e[i]);
      }
    }
  }

  /** The past-service report lists exactly the items whose parsed service date falls before
      `today`; each has a parsed date, the parsed dates are non-decreasing and items of equal date
      keep their dictionary order. */
  lemma PastServiceSpec(inv: Inventory, parse: string -> Option<Date>, today: Instant)
    requires Valid(inv) && PastServiceReport(inv, parse, today).Ok?
    ensures forall it :: it in PastServiceOrder(Entries(inv), parse, today) <==>
      it in Entries(inv) && PastDue(DateKey(parse, it), today)
    ensures forall it :: it in PastServiceOrder(Entries(inv), parse, today) ==> DateReadable(parse, it)
    ensures Stable(PastServiceOrder(Entries(inv), parse, today), Filter(Entries(inv), IsPastDue(parse, today)), ByDate(parse))
  {
    var e := Entries(inv);
    var r := PastServiceOrder(e, parse, today);
    var f := Filter(e, IsPastDue(parse, today));
    PastDueMembers(e, parse, today);
    ByDateIsPreorder(parse);
  }

  // ---------------------------------------------------------------------------------------
  // Damaged inventory, most expensive first
  // ---------------------------------------------------------------------------------------

  predicate IsDamaged(it: Item) {
    it.1.condition
  }

  /** Sorting compares every element with another once there are two of them; a `None` price
      cannot be compared with anything, so only a single damaged item may lack a price. */
  predicate PricesComparable(items: seq<Item>) {
    |items| < 2 || forall i :: 0 <= i < |items| ==> items[i].1.price.Some?
  }

  /** The order of the damaged report: the damaged items, prices non-increasing. */
  function DamagedOrder(items: seq<Item>): (r: seq<Item>)
    ensures multiset(r) == multiset(Filter(items, IsDamaged))
    ensures Sorted(r, ByPriceDescending)
    ensures Stable(r, Filter(items, IsDamaged), ByPriceDescending)
  {
    SortBy(Filter(items, IsDamaged), ByPriceDescending)
  }

  /** `damaged_inventory_report`: DamagedInventory.csv, five columns, the damaged items with the
      most expensive first; raises when two or more damaged items include one without a price. */
  function DamagedReport(inv: Inventory): (r: Result<Table, ReportError>)
    requires Valid(inv)
    ensures r.Ok? <==> PricesComparable(Filter(Entries(inv), IsDamaged))
    ensures r.Err? ==> r.error == IncomparablePrices
    ensures r.Ok? ==> (r.value.fileName == "DamagedInventory.csv" && r.value.header == DamagedColumns
      && r.value.rows == MapRows(DamagedOrder(Entries(inv)), DamagedRow))
  {
    var damaged := Filter(Entries(inv), IsDamaged);
    if PricesComparable(damaged) then
      Ok(Table("DamagedInventory.csv", DamagedColumns, MapRows(DamagedOrder(Entries(inv)), DamagedRow)))
    else
      Err(IncomparablePrices)
  }

  /** The damaged report lists exactly the damaged items, with prices non-increasing and items of
      equal price in dictionary order. */
  lemma DamagedSpec(inv: Inventory)
    requires Valid(inv) && DamagedReport(inv).Ok?
    ensures var r := DamagedOrder(Entries(inv));
      && (forall it :: it in r <==> it in Entries(inv) && it.1.condition)
      && (|r| >= 2 ==> forall i, j :: 0 <= i < j < |r| ==>
            r[i].1.price.Some? && r[j].1.price.Some? && r[i].1.price.value >= r[j].1.price.value)
  {
    var e := Entries(inv);
    var f := Filter(e, IsDamaged);
    var r := DamagedOrder(e);
    DamagedMembers(e);
    if |r| >= 2 {
      assert |multiset(r)| == |multiset(f)|;
      PricedSortDescends(r, f);
    }
  }

  /** The damaged order holds exactly the damaged items. */
  lemma DamagedMembers(e: seq<Item>)
    ensures forall it :: it in DamagedOrder(e) <==> it in e && it.1.condition
  {
    var r := DamagedOrder(e);
    PermutedFilterMembers(r, e, IsDamaged);
    forall it
      ensures it in r <==> it in e && it.1.condition
    {
      assert IsDamaged(it) == it.1.condition;
    }
  }

  /** A price-sorted permutation of a list whose items all have prices lists the prices in
      non-increasing order. */
  lemma PricedSortDescends(r: seq<Item>, f: seq<Item>)
    requires multiset(r) == multiset(f) && Sorted(r, ByPriceDescending)
    requires forall i :: 0 <= i < |f| ==> f[i].1.price.Some?
    ensures forall i :: 0 <= i < |r| ==> r[i].1.price.Some?
    ensures forall i, j :: 0 <= i < j < |r| ==> r[i].1.price.value >= r[j].1.price.value
  {
    forall i | 0 <= i < |r|
      ensures r[i].1.price.Some?
    {
      assert r[i] in multiset(f);
    }
    forall i, j | 0 <= i < j < |r|
      ensures r[i].1.price.value >= r[j].1.price.value
    {
      assert ByPriceDescending(r[i], r[j]);
    }
  }

  // ---------------------------------------------------------------------------------------
  // The batch run
  // ---------------------------------------------------------------------------------------

  /** The files a run writes, in order, and the error that stopped it if any. */
  datatype Run = Run(written: seq<Table>, failure: Option<ReportError>)

  /** `main` after loading: the four reports in turn. The full and per-type reports cannot fail;
      a failing past-service report stops the run before the damaged report. */
  function GenerateReports(inv: Inventory, parse: string -> Option<Date>, today: Instant): (r: Run)
    requires Valid(inv)
    ensures |r.written| >= 1 + |TypeReports(inv)|
    ensures r.written[..1 + |TypeReports(inv)|] == [FullReport(inv)] + TypeReports(inv)
    ensures r.failure.None? <==> PastServiceReport(inv, parse, today).Ok? && DamagedReport(inv).Ok?
    ensures PastServiceReport(inv, parse, today).Err? ==>
      r.failure == Some(PastServiceReport(inv, parse, today).error) && |r.written| == 1 + |TypeReports(inv)|
    ensures r.failure.None? ==> (r.written ==
      [FullReport(inv)] + TypeReports(inv) + [PastServiceReport(inv, parse, today).value, DamagedReport(inv).value])
    ensures PastServiceReport(inv, parse, today).Ok? && DamagedReport(inv).Err? ==>
      (r.written == [FullReport(inv)] + TypeReports(inv) + [PastServiceReport(inv, parse, today).value]
       && r.failure == Some(IncomparablePrices))
  {
    var first := [FullReport(inv)] + TypeReports(inv);
    match PastServiceReport(inv, parse, today)
    case Err(e) => Run(first, Some(e))
    case Ok(past) =>
      match DamagedReport(inv)
      case Err(e) => Run(first + [past], Some(e))
      case Ok(damaged) => Run(first + [past, damaged], None)
  }
}
