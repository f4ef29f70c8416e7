/** The interactive query tool (manufactor.py): an `Inventory` joined strictly from the three
    lists, the `query_item` filter, and the per-line decision of the prompt loop that picks the
    most expensive match and a similar item from another manufacturer. */
module Query {
  import opened Base
  import opened Text
  import opened Dates
  import opened OrderedStore
  import opened Sorting
  import opened Join
  import Reports

  /** An item of the query tool: the damaged field is kept as the raw text of the fourth column,
      and the service date is parsed when loading. */
  type Item = Entry<string, Date>

  /** The dictionary `self.inventory`, keyed by item id. */
  type Inventory = Store<Record<string, Date>>

  /** The exceptions that can escape: nothing in the tool catches them, so each ends the program. */
  datatype QueryError =
    | WrongFieldCount(source: Source, row: nat)  // unpacking a row into too few or too many names: ValueError
    | BadPrice(row: nat)                         // `float()` rejects the text: ValueError
    | BadDate(row: nat)                          // `strptime` rejects the text: ValueError
    | UnknownId(source: Source, row: nat)        // `self.inventory[item_id]` for an id never loaded: KeyError
    | MissingServiceDate(id: string)             // `item['service_date']` on an item never given one: KeyError
    | MissingPrice(id: string)                   // `item["price"]` on an item never given one: KeyError

  // ---------------------------------------------------------------------------------------
  // Loading
  // ---------------------------------------------------------------------------------------

  predicate HasFourFields(row: Row) {
    |row| == 4
  }

  predicate AllHaveFourFields(rows: seq<Row>) {
    forall i :: 0 <= i < |rows| ==> HasFourFields(rows[i])
  }

  function RecordOf(row: Row): Item
    requires HasFourFields(row)
  {
    (row[0], Record(row[1], row[2], row[3], None, None))
  }

  function RecordEntries(rows: seq<Row>): (r: seq<Item>)
    requires AllHaveFourFields(rows)
    ensures |r| == |rows| && forall i :: 0 <= i < |rows| ==> r[i] == RecordOf(rows[i])
  {
    seq(|rows|, i requires 0 <= i < |rows| && |rows[i]| == 4 => RecordOf(rows[i]))
  }

  /** The first loop of `load_inventory`: each row must have exactly four fields; the ids become
      the keys in first-occurrence order and each id holds the record of its last row. */
  function LoadItems(rows: seq<Row>): (r: Result<Inventory, QueryError>)
    ensures r.Ok? <==> AllHaveFourFields(rows)
    ensures r.Err? ==> (r.error.WrongFieldCount? && r.error.source == ManufacturerList
      && r.error.row < |rows| && |rows[r.error.row]| != 4
      && forall i :: 0 <= i < r.error.row ==> |rows[i]| == 4)
    ensures r.Ok? ==> (Valid(r.value) && r.value.keys == FirstOccurrences(Ids(RecordEntries(rows))))
    ensures r.Ok? ==> forall i :: 0 <= i < |rows| && LastFor(RecordEntries(rows), i) ==>
      rows[i][0] in r.value.vals && r.value.vals[rows[i][0]] == Record(rows[i][1], rows[i][2], rows[i][3], None, None)
    ensures r.Ok? ==> forall k :: k in r.value.vals ==> r.value.vals[k].price.None? && r.value.vals[k].serviceDate.None?
  {
    match FirstFailing(rows, HasFourFields)
    case Some(i) => Err(WrongFieldCount(ManufacturerList, i))
    case None =>
      ItemsOfRows(rows);
      Ok(PutAll(Empty(), RecordEntries(rows)))
  }

  /** What assigning the records of the manufacturer rows in turn builds. */
  lemma ItemsOfRows(rows: seq<Row>)
    requires AllHaveFourFields(rows)
    ensures var st := PutAll(Empty<Record<string, Date>>(), RecordEntries(rows));
      && st.keys == FirstOccurrences(Ids(RecordEntries(rows)))
      && (forall i :: 0 <= i < |rows| && LastFor(RecordEntries(rows), i) ==>
            rows[i][0] in st.vals && st.vals[rows[i][0]] == Record(rows[i][1], rows[i][2], rows[i][3], None, None))
      && (forall k :: k in st.vals ==> st.vals[k].price.None? && st.vals[k].serviceDate.None?)
  {
    var entries := RecordEntries(rows);
    PutAllKeys(Empty(), entries);
    PutAllValues(Empty(), entries);
    PutAllKeeps(Empty(), entries, (v: Record<string, Date>) => v.price.None? && v.serviceDate.None?);
    assert Empty<Record<string, Date>>().keys + Ids(entries) == Ids(entries);
  }

  /** A price or service-date row passes: exactly two fields, text the parser accepts, and an id
      already loaded. */
  predicate RowLoads<T>(st: Inventory, row: Row, parse: string -> Option<T>) {
    |row| == 2 && parse(row[1]).Some? && row[0] in st.vals
  }

  predicate AllRowsLoad<T>(st: Inventory, rows: seq<Row>, parse: string -> Option<T>) {
    forall i :: 0 <= i < |rows| ==> RowLoads(st, rows[i], parse)
  }

  /** The exception a failing row raises. The value is converted before the dictionary is indexed,
      so an unparsable value is reported even for an unknown id. */
  function RowError<T>(st: Inventory, row: Row, i: nat, parse: string -> Option<T>, source: Source, parseError: QueryError): QueryError {
    if |row| != 2 then WrongFieldCount(source, i)
    else if parse(row[1]).None? then parseError
    else UnknownId(source, i)
  }

  function ParsedEntries<T>(st: Inventory, rows: seq<Row>, parse: string -> Option<T>): (r: seq<(string, T)>)
    requires AllRowsLoad(st, rows, parse)
    ensures |r| == |rows| && forall i :: 0 <= i < |rows| ==> r[i] == (rows[i][0], parse(rows[i][1]).value)
  {
    seq(|rows|, i requires 0 <= i < |rows| && |rows[i]| == 2 && parse(rows[i][1]).Some? => (rows[i][0], parse(rows[i][1]).value))
  }

  /** The second loop of `load_inventory`: every row gives its id a price; the first row that is
      not exactly two fields, whose price does not parse, or whose id is unknown raises. */
  function LoadPrices(st: Inventory, rows: seq<Row>, parse: string -> Option<Price>): (r: Result<Inventory, QueryError>)
    requires Valid(st)
    ensures r.Ok? <==> AllRowsLoad(st, rows, parse)
    ensures r.Err? ==> exists i :: (0 <= i < |rows| && !RowLoads(st, rows[i], parse)
      && (forall j :: 0 <= j < i ==> RowLoads(st, rows[j], parse))
      && r.error == RowError(st, rows[i], i, parse, PriceList, BadPrice(i)))
    ensures r.Ok? ==> Valid(r.value) && r.value.keys == st.keys && r.value.vals.Keys == st.vals.Keys
  {
    match FirstFailing(rows, row => RowLoads(st, row, parse))
    case Some(i) => Err(RowError(st, rows[i], i, parse, PriceList, BadPrice(i)))
    case None => Ok(SetPrices(st, ParsedEntries(st, rows, parse)))
  }

  /** The third loop of `load_inventory`: every row gives its id a parsed service date, under the
      same three failure checks as prices. */
  function LoadDates(st: Inventory, rows: seq<Row>, parse: string -> Option<Date>): (r: Result<Inventory, QueryError>)
    requires Valid(st)
    ensures r.Ok? <==> AllRowsLoad(st, rows, parse)
    ensures r.Err? ==> exists i :: (0 <= i < |rows| && !RowLoads(st, rows[i], parse)
      && (forall j :: 0 <= j < i ==> RowLoads(st, rows[j], parse))
      && r.error == RowError(st, rows[i], i, parse, ServiceDatesList, BadDate(i)))
    ensures r.Ok? ==> Valid(r.value) && r.value.keys == st.keys && r.value.vals.Keys == st.vals.Keys
  {
    match FirstFailing(rows, row => RowLoads(st, row, parse))
    case Some(i) => Err(RowError(st, rows[i], i, parse, ServiceDatesList, BadDate(i)))
    case None => Ok(SetDates(st, ParsedEntries(st, rows, parse)))
  }

  /** `Inventory(...)`: the three loops in order, the first exception ending the load. */
  function Load(mrows: seq<Row>, prows: seq<Row>, drows: seq<Row>,
                parsePrice: string -> Option<Price>, parseDate: string -> Option<Date>): (r: Result<Inventory, QueryError>)
    ensures r.Ok? <==> (AllHaveFourFields(mrows) && AllRowsLoad(LoadItems(mrows).value, prows, parsePrice)
      && AllRowsLoad(LoadItems(mrows).value, drows, parseDate))
    ensures r.Err? ==> (if !AllHaveFourFields(mrows) then r == Err(LoadItems(mrows).error)
      else if !AllRowsLoad(LoadItems(mrows).value, prows, parsePrice) then r == Err(LoadPrices(LoadItems(mrows).value, prows, parsePrice).error)
      else r == Err(LoadDates(LoadPrices(LoadItems(mrows).value, prows, parsePrice).value, drows, parseDate).error))
    ensures r.Ok? ==> Valid(r.value) && LoadItems(mrows).Ok? && r.value.keys == LoadItems(mrows).value.keys
  {
    match LoadItems(mrows)
    case Err(e) => Err(e)
    case Ok(items) =>
      match LoadPrices(items, prows, parsePrice)
      case Err(e) => Err(e)
      case Ok(priced) => LoadDates(priced, drows, parseDate)
  }

  /** After a load that raises nothing, the ids are exactly those of the manufacturer rows: a price
      or date row never adds one. Each record keeps the text fields of its last manufacturer row,
      has the price of the last price row naming it, and the date of the last date row naming it. */
  lemma LoadSpec(mrows: seq<Row>, prows: seq<Row>, drows: seq<Row>,
                 parsePrice: string -> Option<Price>, parseDate: string -> Option<Date>)
    requires Load(mrows, prows, drows, parsePrice, parseDate).Ok?
    ensures var inv := Load(mrows, prows, drows, parsePrice, parseDate).value;
      forall k :: k in inv.vals <==> exists i :: 0 <= i < |mrows| && mrows[i][0] == k
    ensures var inv := Load(mrows, prows, drows, parsePrice, parseDate).value;
      forall i :: 0 <= i < |mrows| && LastFor(RecordEntries(mrows), i) ==>
        && inv.vals[mrows[i][0]].manufacturer == mrows[i][1]
        && inv.vals[mrows[i][0]].itemType == mrows[i][2]
        && inv.vals[mrows[i][0]].condition == mrows[i][3]
    ensures var inv := Load(mrows, prows, drows, parsePrice, parseDate).value;
      forall i :: 0 <= i < |prows| && LastFor(ParsedEntries(LoadItems(mrows).value, prows, parsePrice), i) ==>
        inv.vals[prows[i][0]].price == parsePrice(prows[i][1])
    ensures var inv := Load(mrows, prows, drows, parsePrice, parseDate).value;
      forall i :: 0 <= i < |drows| && LastFor(ParsedEntries(LoadPrices(LoadItems(mrows).value, prows, parsePrice).value, drows, parseDate), i) ==>
        inv.vals[drows[i][0]].serviceDate == parseDate(drows[i][1])
    ensures var inv := Load(mrows, prows, drows, parsePrice, parseDate).value;
      forall k :: k in inv.vals && k !in Ids(ParsedEntries(LoadItems(mrows).value, prows, parsePrice)) ==>
        inv.vals[k].price.None?
    ensures var inv := Load(mrows, prows, drows, parsePrice, parseDate).value;
      forall k :: k in inv.vals && k !in Ids(ParsedEntries(LoadPrices(LoadItems(mrows).value, prows, parsePrice).value, drows, parseDate)) ==>
        inv.vals[k].serviceDate.None?
  {
    var items := LoadItems(mrows).value;
    var priced := LoadPrices(items, prows, parsePrice).value;
    var inv := LoadDates(priced, drows, parseDate).value;
    var pe := ParsedEntries(items, prows, parsePrice);
    var de := ParsedEntries(priced, drows, parseDate);
    SetPricesSpec(items, pe);
    SetDatesSpec(priced, de);
    forall k | k in inv.vals
      ensures exists i :: 0 <= i < |mrows| && mrows[i][0] == k
    {
      assert k in Ids(RecordEntries(mrows));
      var i :| 0 <= i < |mrows| && Ids(RecordEntries(mrows))[i] == k;
      assert mrows[i][0] == k;
    }
    forall i | 0 <= i < |mrows|
      ensures mrows[i][0] in inv.vals
    {
      assert Ids(RecordEntries(mrows))[i] == mrows[i][0];
    }
    forall i | 0 <= i < |prows| && LastFor(pe, i)
      ensures inv.vals[prows[i][0]].price == parsePrice(prows[i][1])
    {
      assert inv.vals[prows[i][0]] == priced.vals[prows[i][0]].(serviceDate := inv.vals[prows[i][0]].serviceDate);
    }
  }

  // ---------------------------------------------------------------------------------------
  // query_item
  // ---------------------------------------------------------------------------------------

  /** The two text tests of `query_item`: each lowered query word occurs in the lowered field. */
  predicate TextMatches(it: Item, manufacturer: string, itemType: string) {
    Contains(Lower(manufacturer), Lower(it.1.manufacturer)) && Contains(Lower(itemType), Lower(it.1.itemType))
  }

  /** The in-service and condition tests shared by the query and the similar-item pool. The date
      test reads the service date; the condition test compares the raw field with "damaged"
      exactly, case included. */
  predicate Available(it: Item, now: Instant) {
    it.1.serviceDate.Some? && InService(it.1.serviceDate.value, now) && it.1.condition != "damaged"
  }

  /** The test of the similar-item pool: another manufacturer than the query's and the very type
      of the query, both ignoring case. */
  predicate SimilarTo(it: Item, manufacturer: string, itemType: string) {
    !EqualsIgnoreCase(it.1.manufacturer, manufacturer) && EqualsIgnoreCase(it.1.itemType, itemType)
  }

  function Matching(manufacturer: string, itemType: string, now: Instant): Item -> bool {
    (it: Item) => TextMatches(it, manufacturer, itemType) && Available(it, now)
  }

  function SimilarPool(manufacturer: string, itemType: string, now: Instant): Item -> bool {
    (it: Item) => SimilarTo(it, manufacturer, itemType) && Available(it, now)
  }

  /** An item for which the tests before the date test hold has no date to compare. The `and`
      chain stops at the first failing test, so an item failing an earlier test is never asked. */
  predicate DateMissing(it: Item, firstTests: bool) {
    firstTests && it.1.serviceDate.None?
  }

  /** A comprehension over the dictionary's items that raises at the first item reaching the date
      test without a date, and otherwise keeps the items passing `keep`. */
  function Select(items: seq<Item>, reaches: Item -> bool, keep: Item -> bool): (r: Result<seq<Item>, QueryError>)
    ensures r.Ok? <==> forall i :: 0 <= i < |items| ==> !DateMissing(items[i], reaches(items[i]))
    ensures r.Err? ==> exists i :: (0 <= i < |items| && DateMissing(items[i], reaches(items[i]))
      && (forall j :: 0 <= j < i ==> !DateMissing(items[j], reaches(items[j])))
      && r.error == MissingServiceDate(items[i].0))
    ensures r.Ok? ==> r.value == Filter(items, keep)
  {
    match FirstFailing(items, it => !DateMissing(it, reaches(it)))
    case Some(i) => Err(MissingServiceDate(items[i].0))
    case None => Ok(Filter(items, keep))
  }

  /** `query_item`: the items, in dictionary order, matching both query words that are in service
      and not marked "damaged", each once. It raises exactly when an item matching both words has
      no service date. It reads the inventory only. */
  function QueryItem(inv: Inventory, manufacturer: string, itemType: string, now: Instant): (r: Result<seq<Item>, QueryError>)
    requires Valid(inv)
    ensures r.Err? <==>
      exists it :: it in Entries(inv) && TextMatches(it, manufacturer, itemType) && it.1.serviceDate.None?
    ensures r.Err? ==> exists i :: (0 <= i < |Entries(inv)|
      && DateMissing(Entries(inv)[i], TextMatches(Entries(inv)[i], manufacturer, itemType))
      && (forall j :: 0 <= j < i ==> !DateMissing(Entries(inv)[j], TextMatches(Entries(inv)[j], manufacturer, itemType)))
      && r.error == MissingServiceDate(Entries(inv)[i].0))
    ensures r.Ok? ==>
      forall it :: it in r.value <==>
        && it in Entries(inv)
        && IsSubstring(Lower(manufacturer), Lower(it.1.manufacturer))
        && IsSubstring(Lower(itemType), Lower(it.1.itemType))
        && it.1.serviceDate.Some? && InService(it.1.serviceDate.value, now)
        && it.1.condition != "damaged"
    ensures r.Ok? ==> forall i, j :: 0 <= i < j < |r.value| ==> r.value[i].0 != r.value[j].0
    ensures r.Ok? ==> r.value == Filter(Entries(inv), Matching(manufacturer, itemType, now))
  {
    SelectSpec(inv, (it: Item) => TextMatches(it, manufacturer, itemType), Matching(manufacturer, itemType, now));
    Select(Entries(inv), (it: Item) => TextMatches(it, manufacturer, itemType), Matching(manufacturer, itemType, now))
  }

  /** `close_price_items`: the pool of similar items, in dictionary order, each once: another
      manufacturer and the same type, both ignoring case, in service and not marked "damaged".
      It raises exactly when such an item has no service date. */
  function Alternatives(inv: Inventory, manufacturer: string, itemType: string, now: Instant): (r: Result<seq<Item>, QueryError>)
    requires Valid(inv)
    ensures r.Err? <==>
      exists it :: it in Entries(inv) && SimilarTo(it, manufacturer, itemType) && it.1.serviceDate.None?
    ensures r.Err? ==> exists i :: (0 <= i < |Entries(inv)|
      && DateMissing(Entries(inv)[i], SimilarTo(Entries(inv)[i], manufacturer, itemType))
      && (forall j :: 0 <= j < i ==> !DateMissing(Entries(inv)[j], SimilarTo(Entries(inv)[j], manufacturer, itemType)))
      && r.error == MissingServiceDate(Entries(inv)[i].0))
    ensures r.Ok? ==>
      forall it :: it in r.value <==>
        && it in Entries(inv)
        && Lower(it.1.manufacturer) != Lower(manufacturer)
        && Lower(it.1.itemType) == Lower(itemType)
        && it.1.serviceDate.Some? && InService(it.1.serviceDate.value, now)
        && it.1.condition != "damaged"
    ensures r.Ok? ==> forall i, j :: 0 <= i < j < |r.value| ==> r.value[i].0 != r.value[j].0
    ensures r.Ok? ==> r.value == Filter(Entries(inv), SimilarPool(manufacturer, itemType, now))
  {
    SelectSpec(inv, (it: Item) => SimilarTo(it, manufacturer, itemType), SimilarPool(manufacturer, itemType, now));
    Select(Entries(inv), (it: Item) => SimilarTo(it, manufacturer, itemType), SimilarPool(manufacturer, itemType, now))
  }

  /** What `Select` delivers on the dictionary's entries: membership by `keep`, no id twice. */
  lemma SelectSpec(inv: Inventory, reaches: Item -> bool, keep: Item -> bool)
    requires Valid(inv)
    ensures Select(Entries(inv), reaches, keep).Err? <==>
      exists it :: it in Entries(inv) && reaches(it) && it.1.serviceDate.None?
    ensures Select(Entries(inv), reaches, keep).Ok? ==>
      forall it :: it in Select(Entries(inv), reaches, keep).value <==> it in Entries(inv) && keep(it)
    ensures Select(Entries(inv), reaches, keep).Ok? ==>
      var r := Select(Entries(inv), reaches, keep).value;
      forall i, j :: 0 <= i < j < |r| ==> r[i].0 != r[j].0
  {
    var e := Entries(inv);
    if Select(e, reaches, keep).Ok? {
      var r := Filter(e, keep);
      PermutedFilterMembers(r, e, keep);
      FilterSubMultiset(e, keep);
      SubEntriesDistinct(inv, r);
    } else {
      var i :| 0 <= i < |e| && DateMissing(e[i], reaches(e[i]));
      assert e[i] in e;
    }
  }

  // ---------------------------------------------------------------------------------------
  // Choosing by price
  // ---------------------------------------------------------------------------------------

  predicate HasPrice(it: Item) {
    it.1.price.Some?
  }

  /** `items.sort(key=sort_by_price, reverse=True)`. The key is computed for every element before
      any comparison, so one item without a price raises even when it is alone. */
  function SortByPrice(items: seq<Item>): (r: Result<seq<Item>, QueryError>)
    ensures r.Ok? <==> forall i :: 0 <= i < |items| ==> HasPrice(items[i])
    ensures r.Err? ==> exists i :: (0 <= i < |items| && !HasPrice(items[i])
      && (forall j :: 0 <= j < i ==> HasPrice(items[j])) && r.error == MissingPrice(items[i].0))
    ensures r.Ok? ==> (multiset(r.value) == multiset(items) && Sorted(r.value, ByPriceDescending)
      && Stable(r.value, items, ByPriceDescending))
  {
    match FirstFailing(items, HasPrice)
    case Some(i) => Err(MissingPrice(items[i].0))
    case None => Ok(SortBy(items, ByPriceDescending))
  }

  /** The head of the price-sorted list, or nothing for an empty list. */
  function Best(items: seq<Item>): (r: Result<Option<Item>, QueryError>)
    ensures r.Ok? <==> forall i :: 0 <= i < |items| ==> HasPrice(items[i])
    ensures r.Err? ==> exists i :: (0 <= i < |items| && !HasPrice(items[i])
      && (forall j :: 0 <= j < i ==> HasPrice(items[j])) && r.error == MissingPrice(items[i].0))
    ensures r.Ok? ==> (r.value.None? <==> |items| == 0)
    ensures r.Ok? && r.value.Some? ==> r.value.value in items
  {
    match SortByPrice(items)
    case Err(e) => Err(e)
    case Ok(sorted) =>
      assert |sorted| == |items| by {
        assert |multiset(sorted)| == |multiset(items)|;
      }
      assert |sorted| > 0 ==> sorted[0] in multiset(items);
      Ok(if |sorted| == 0 then None else Some(sorted[0]))
  }

  /** `items[0]` after the descending sort is the first item, in list order, of the highest price:
      every item costs at most as much, and every earlier item costs strictly less. */
  lemma BestIsFirstMostExpensive(items: seq<Item>) returns (i: nat)
    requires Best(items).Ok? && |items| > 0
    ensures i < |items| && Best(items).value == Some(items[i])
    ensures forall j :: 0 <= j < |items| ==> items[j].1.price.value <= items[i].1.price.value
    ensures forall j :: 0 <= j < i ==> items[j].1.price.value < items[i].1.price.value
  {
    i := SortByHead(items, ByPriceDescending);
  }

  // ---------------------------------------------------------------------------------------
  // One line of the prompt loop
  // ---------------------------------------------------------------------------------------

  /** What one line of input leads to. `Found` is the chosen item with the similar item if the
      pool has one; `Crashed` is an exception escaping, after the chosen item was printed if
      `shown` holds it. */
  datatype Outcome =
    | Quit
    | InvalidInput
    | NoMatch
    | Found(chosen: Item, similar: Option<Item>)
    | Crashed(shown: Option<Item>, error: QueryError)

  /** The body of the `while True` loop of `main` for one input line. */
  function Step(inv: Inventory, line: string, now: Instant): (r: Outcome)
    requires Valid(inv)
    ensures r.Quit? <==> Lower(line) == "q"
    ensures r.InvalidInput? <==> Lower(line) != "q" && |Tokens(line)| != 2
    ensures r.NoMatch? <==> (Lower(line) != "q" && |Tokens(line)| == 2
      && QueryItem(inv, Tokens(line)[0], Tokens(line)[1], now) == Ok([]))
    ensures r.Found? ==> (|Tokens(line)| == 2
      && QueryItem(inv, Tokens(line)[0], Tokens(line)[1], now).Ok?
      && Best(QueryItem(inv, Tokens(line)[0], Tokens(line)[1], now).value) == Ok(Some(r.chosen))
      && Alternatives(inv, Tokens(line)[0], Tokens(line)[1], now).Ok?
      && Best(Alternatives(inv, Tokens(line)[0], Tokens(line)[1], now).value) == Ok(r.similar))
    ensures r.Found? <==> (Lower(line) != "q" && |Tokens(line)| == 2
      && QueryItem(inv, Tokens(line)[0], Tokens(line)[1], now).Ok?
      && |QueryItem(inv, Tokens(line)[0], Tokens(line)[1], now).value| > 0
      && Best(QueryItem(inv, Tokens(line)[0], Tokens(line)[1], now).value).Ok?
      && Alternatives(inv, Tokens(line)[0], Tokens(line)[1], now).Ok?
      && Best(Alternatives(inv, Tokens(line)[0], Tokens(line)[1], now).value).Ok?)
    ensures r.Crashed? ==> (Lower(line) != "q" && |Tokens(line)| == 2
      && var q := QueryItem(inv, Tokens(line)[0], Tokens(line)[1], now);
      && (r.shown.Some? <==> q.Ok? && Best(q.value).Ok?)
      && (r.shown.Some? ==> (Best(q.value) == Ok(r.shown)
            && r.error == (if Alternatives(inv, Tokens(line)[0], Tokens(line)[1], now).Err?
                           then Alternatives(inv, Tokens(line)[0], Tokens(line)[1], now).error
                           else Best(Alternatives(inv, Tokens(line)[0], Tokens(line)[1], now).value).error)))
      && (r.shown.None? ==> r.error == (if q.Err? then q.error else Best(q.value).error)))
  {
    if Lower(line) == "q" then Quit
    else
      var words := Tokens(line);
      if |words| != 2 then InvalidInput
      else
        match QueryItem(inv, words[0], words[1], now)
        case Err(e) => Crashed(None, e)
        case Ok(items) =>
          if |items| == 0 then NoMatch
          else
            match Best(items)
            case Err(e) => Crashed(None, e)
            case Ok(chosen) =>
              match Alternatives(inv, words[0], words[1], now)
              case Err(e) => Crashed(chosen, e)
              case Ok(pool) =>
                match Best(pool)
                case Err(e) => Crashed(chosen, e)
                case Ok(similar) => Found(chosen.value, similar)
  }

  /** What a `Found` line reports: the chosen item meets all four query conditions and is the
      first of the highest price among the matches; the similar item, when there is one, is from
      another manufacturer than the query word, of exactly the queried type ignoring case, in
      service, not marked "damaged", and of the highest price among such items. */
  lemma FoundSpec(inv: Inventory, line: string, now: Instant)
    requires Valid(inv) && Step(inv, line, now).Found?
    ensures var words := Tokens(line);
      var matches := QueryItem(inv, words[0], words[1], now).value;
      var c := Step(inv, line, now).chosen;
      && IsSubstring(Lower(words[0]), Lower(c.1.manufacturer))
      && IsSubstring(Lower(words[1]), Lower(c.1.itemType))
      && c.1.serviceDate.Some? && InService(c.1.serviceDate.value, now)
      && c.1.condition != "damaged"
      && FirstOfHighestPrice(matches, c)
    ensures var words := Tokens(line);
      var pool := Alternatives(inv, words[0], words[1], now).value;
      var s := Step(inv, line, now).similar;
      && (s.None? <==> |pool| == 0)
      && (s.Some? ==>
            && Lower(s.value.1.manufacturer) != Lower(words[0])
            && Lower(s.value.1.itemType) == Lower(words[1])
            && s.value.1.serviceDate.Some? && InService(s.value.1.serviceDate.value, now)
            && s.value.1.condition != "damaged"
            && FirstOfHighestPrice(pool, s.value))
  {
    var words := Tokens(line);
    ChosenSpec(inv, words[0], words[1], now, Step(inv, line, now).chosen);
    SimilarSpec(inv, words[0], words[1], now, Step(inv, line, now).similar);
  }

  /** `c` occurs in `items`, every item has a price, none is dearer than `c`, and every item
      before `c` is strictly cheaper. */
  ghost predicate FirstOfHighestPrice(items: seq<Item>, c: Item) {
    && c in items
    && (forall j :: 0 <= j < |items| ==> items[j].1.price.Some?)
    && c.1.price.Some?
    && (forall j :: 0 <= j < |items| ==> items[j].1.price.value <= c.1.price.value)
    && (forall j :: 0 <= j < |items| && items[j] == c ==>
          forall k :: 0 <= k < j ==> items[k].1.price.value < c.1.price.value)
  }

  /** The head of the price sort of a list without repeated ids is its first item of the highest price. */
  lemma BestOfDistinct(items: seq<Item>, c: Item)
    requires Best(items) == Ok(Some(c))
    requires forall i, j :: 0 <= i < j < |items| ==> items[i].0 != items[j].0
    ensures FirstOfHighestPrice(items, c)
  {
    var i := BestIsFirstMostExpensive(items);
    forall j | 0 <= j < |items| && items[j] == c
      ensures forall k :: 0 <= k < j ==> items[k].1.price.value < c.1.price.value
    {
      assert j == i;
    }
  }

  lemma ChosenSpec(inv: Inventory, manufacturer: string, itemType: string, now: Instant, c: Item)
    requires Valid(inv) && QueryItem(inv, manufacturer, itemType, now).Ok?
    requires Best(QueryItem(inv, manufacturer, itemType, now).value) == Ok(Some(c))
    ensures IsSubstring(Lower(manufacturer), Lower(c.1.manufacturer))
    ensures IsSubstring(Lower(itemType), Lower(c.1.itemType))
    ensures c.1.serviceDate.Some? && InService(c.1.serviceDate.value, now) && c.1.condition != "damaged"
    ensures FirstOfHighestPrice(QueryItem(inv, manufacturer, itemType, now).value, c)
    ensures forall k, m :: (0 <= k < m < |Entries(inv)| && Entries(inv)[m] == c
      && TextMatches(Entries(inv)[k], manufacturer, itemType) && Available(Entries(inv)[k], now)) ==>
        Entries(inv)[k].1.price.Some? && Entries(inv)[k].1.price.value < c.1.price.value
  {
    BestOfDistinct(QueryItem(inv, manufacturer, itemType, now).value, c);
    EarlierKeptCheaper(inv, Matching(manufacturer, itemType, now), c);
  }

  lemma SimilarSpec(inv: Inventory, manufacturer: string, itemType: string, now: Instant, s: Option<Item>)
    requires Valid(inv) && Alternatives(inv, manufacturer, itemType, now).Ok?
    requires Best(Alternatives(inv, manufacturer, itemType, now).value) == Ok(s)
    ensures s.None? <==> |Alternatives(inv, manufacturer, itemType, now).value| == 0
    ensures s.Some? ==>
      && Lower(s.value.1.manufacturer) != Lower(manufacturer)
      && Lower(s.value.1.itemType) == Lower(itemType)
      && s.value.1.serviceDate.Some? && InService(s.value.1.serviceDate.value, now)
      && s.value.1.condition != "damaged"
      && FirstOfHighestPrice(Alternatives(inv, manufacturer, itemType, now).value, s.value)
    ensures s.Some? ==> forall k, m :: (0 <= k < m < |Entries(inv)| && Entries(inv)[m] == s.value
      && SimilarTo(Entries(inv)[k], manufacturer, itemType) && Available(Entries(inv)[k], now)) ==>
        Entries(inv)[k].1.price.Some? && Entries(inv)[k].1.price.value < s.value.1.price.value
  {
    if s.Some? {
      BestOfDistinct(Alternatives(inv, manufacturer, itemType, now).value, s.value);
      EarlierKeptCheaper(inv, SimilarPool(manufacturer, itemType, now), s.value);
    }
  }

  /** The head of the price sort of a filtered dictionary is the first of its price in dictionary
      order: every item before it in the dictionary that passes the filter has a strictly lower
      price. */
  lemma EarlierKeptCheaper(inv: Inventory, keep: Item -> bool, c: Item)
    requires Valid(inv) && Best(Filter(Entries(inv), keep)) == Ok(Some(c))
    ensures c.1.price.Some?
    ensures forall k, m :: 0 <= k < m < |Entries(inv)| && Entries(inv)[m] == c && keep(Entries(inv)[k]) ==>
      Entries(inv)[k].1.price.Some? && Entries(inv)[k].1.price.value < c.1.price.value
  {
    var e := Entries(inv);
    FilterSubMultiset(e, keep);
    SubEntriesDistinct(inv, Filter(e, keep));
    EarlierKeptCheaperIn(e, keep, c);
  }

  lemma EarlierKeptCheaperIn(e: seq<Item>, keep: Item -> bool, c: Item)
    requires Best(Filter(e, keep)) == Ok(Some(c))
    requires forall a, b :: 0 <= a < b < |Filter(e, keep)| ==> Filter(e, keep)[a].0 != Filter(e, keep)[b].0
    ensures c.1.price.Some?
    ensures forall k, m :: 0 <= k < m < |e| && e[m] == c && keep(e[k]) ==>
      e[k].1.price.Some? && e[k].1.price.value < c.1.price.value
  {
    var i := BestIsFirstMostExpensive(Filter(e, keep));
    forall k, m | 0 <= k < m < |e| && e[m] == c && keep(e[k]) {
      EarlierKeptCheaperAt(e, keep, i, k, m);
    }
  }

  lemma EarlierKeptCheaperAt(e: seq<Item>, keep: Item -> bool, i: nat, k: int, m: int)
    requires i < |Filter(e, keep)| && 0 <= k < m < |e| && e[m] == Filter(e, keep)[i] && keep(e[k])
    requires forall j :: 0 <= j < |Filter(e, keep)| ==> Filter(e, keep)[j].1.price.Some?
    requires forall j :: 0 <= j < i ==> Filter(e, keep)[j].1.price.value < e[m].1.price.value
    requires forall a, b :: 0 <= a < b < |Filter(e, keep)| ==> Filter(e, keep)[a].0 != Filter(e, keep)[b].0
    ensures e[k].1.price.Some? && e[k].1.price.value < e[m].1.price.value
  {
    var r := Filter(e, keep);
    assert keep(r[i]);
    FilterKeepsOrder(e, keep, k, m);
    var a, b :| 0 <= a < b < |r| && r[a] == e[k] && r[b] == e[m];
    assert b == i;
  }

  // ---------------------------------------------------------------------------------------
  // Consequences
  // ---------------------------------------------------------------------------------------

  /** The two scripts read the condition column differently: the report tool lowers it, the query
      tool compares it as written. A row marked "Damaged" is damaged in the reports but is not
      excluded by the query tool's condition test. */
  lemma DamagedMarkIsCaseSensitive(row: Row)
    requires |row| == 4 && row[3] == "Damaged"
    ensures Reports.IsDamagedRow(row)
    ensures RecordOf(row).1.condition != "damaged"
  {
    assert Lower(row[3]) == "damaged";
  }

  /** The similar-item rule compares manufacturers with the query word, not with the chosen item,
      so the chosen item itself can come back as its own similar item: a single in-service item of
      manufacturer "acme inc" and type "chair", queried with "acme chair". */
  lemma SimilarMayBeChosen()
    ensures Step(SampleInventory, "acme chair", SampleNow) == Found(Sample, Some(Sample))
  {
    SampleWords();
    SampleSelections();
    SampleBest();
  }

  const SampleInventory: Inventory := Store(["1"], map["1" := Sample.1])

  lemma SampleSelections()
    ensures QueryItem(SampleInventory, "acme", "chair", SampleNow) == Ok([Sample])
    ensures Alternatives(SampleInventory, "acme", "chair", SampleNow) == Ok([Sample])
  {
    SampleQualifies();
    assert Entries(SampleInventory) == [Sample];
    assert [Sample][..0] == [];
    assert SimilarPool("acme", "chair", SampleNow)(Sample);
    assert Filter([Sample], SimilarPool("acme", "chair", SampleNow)) == [Sample];
  }

  lemma SampleBest()
    ensures Best([Sample]) == Ok(Some(Sample))
  {
    assert [Sample][..0] == [];
  }

  const Sample: Item := ("1", Record("acme inc", "chair", "", Some(5), Some(Date(2030, 1, 1))))
  const SampleNow: Instant := Instant(Date(2020, 1, 1), 0)

  lemma SampleWords()
    ensures Lower("acme chair") != "q" && Tokens("acme chair") == ["acme", "chair"]
  {
    assert |Lower("acme chair")| == 10;
    assert "acme chair" == "acme" + [' '] + "chair";
    assert NoSpace("acme") && NoSpace("chair");
    TokensOfWord("acme");
    TokensOfWord("chair");
    TokensAtSpace("acme", ' ', "chair");
    assert Tokens("acme" + [' '] + "chair") == ["acme", "chair"];
  }

  lemma SampleQualifies()
    ensures TextMatches(Sample, "acme", "chair") && SimilarTo(Sample, "acme", "chair") && Available(Sample, SampleNow)
  {
    LowerOfLowerCase("acme");
    LowerOfLowerCase("chair");
    LowerOfLowerCase("acme inc");
    assert "acme inc" == "acme" + " inc";
    assert ("acme" + " inc")[..4] == "acme";
    assert IsPrefix("acme", "acme inc"[0..]);
    assert IsPrefix("chair", "chair"[0..]);
  }
}
