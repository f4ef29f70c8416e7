/** The joined inventory record shared by both scripts, and the second and third loading passes
    that attach prices and service dates to records the first pass created. */
module Join {
  import opened Base
  import opened OrderedStore

  /** A price as parsed from the price list. Prices are only compared and written out, never
      computed with, so an integer stands for the parsed float. */
  type Price = int

  /** The joined record of one item. The condition field `C` and the service date `D` are kept
      differently by the two scripts; price and service date stay absent until a pass sets them. */
  datatype Record<C, D> = Record(
    manufacturer: string,
    itemType: string,
    condition: C,
    price: Option<Price>,
    serviceDate: Option<D>)

  /** An item as iterating the inventory yields it: the item id and its record. */
  type Entry<C, D> = (string, Record<C, D>)

  /** One CSV row: its fields as text. */
  type Row = seq<string>

  /** The three lists the inventory is joined from. */
  datatype Source = ManufacturerList | PriceList | ServiceDatesList

  /** The price an item carries, as the price sort's key. Only consulted once every compared
      item has a price; the zero returned otherwise is never compared. */
  function PriceKey<C, D>(it: Entry<C, D>): (r: Price)
    ensures it.1.price.Some? ==> r == it.1.price.value
  {
    match it.1.price
    case Some(p) => p
    case None => 0
  }

  /** The comparison of a sort by price with `reverse=True`: higher prices first. */
  predicate ByPriceDescending<C, D>(a: Entry<C, D>, b: Entry<C, D>) {
    PriceKey(a) >= PriceKey(b)
  }

  /** Sets the price of each listed id that the store already holds, in list order; ids the
      store does not hold are passed over. */
  function SetPrices<C, D>(st: Store<Record<C, D>>, prices: seq<(string, Price)>): (r: Store<Record<C, D>>)
    requires Valid(st)
    ensures Valid(r) && r.keys == st.keys
    ensures forall k :: k in r.vals <==> k in st.vals
    ensures forall k :: k in st.vals ==> r.vals[k] == st.vals[k].(price := r.vals[k].price)
    decreases |prices|
  {
    if |prices| == 0 then st
    else
      var p := SetPrices(st, prices[..|prices| - 1]);
      var id := prices[|prices| - 1].0;
      if id in p.vals then Store(p.keys, p.vals[id := p.vals[id].(price := Some(prices[|prices| - 1].1))])
      else p
  }

  /** Sets the service date of each listed id that the store already holds, in list order; ids
      the store does not hold are passed over. */
  function SetDates<C, D>(st: Store<Record<C, D>>, dates: seq<(string, D)>): (r: Store<Record<C, D>>)
    requires Valid(st)
    ensures Valid(r) && r.keys == st.keys
    ensures forall k :: k in r.vals <==> k in st.vals
    ensures forall k :: k in st.vals ==> r.vals[k] == st.vals[k].(serviceDate := r.vals[k].serviceDate)
    decreases |dates|
  {
    if |dates| == 0 then st
    else
      var p := SetDates(st, dates[..|dates| - 1]);
      var id := dates[|dates| - 1].0;
      if id in p.vals then Store(p.keys, p.vals[id := p.vals[id].(serviceDate := Some(dates[|dates| - 1].1))])
      else p
  }

  /** The price pass changes prices only: a held id that the list names gets the price of its
      last row, every other record is untouched, and no id is added. */
  lemma SetPricesSpec<C, D>(st: Store<Record<C, D>>, prices: seq<(string, Price)>)
    requires Valid(st)
    ensures forall i :: 0 <= i < |prices| && LastFor(prices, i) && prices[i].0 in st.vals ==>
      SetPrices(st, prices).vals[prices[i].0] == st.vals[prices[i].0].(price := Some(prices[i].1))
    ensures forall k :: k in st.vals && k !in Ids(prices) ==> SetPrices(st, prices).vals[k] == st.vals[k]
  {
    forall i | 0 <= i < |prices| && LastFor(prices, i) && prices[i].0 in st.vals {
      SetPricesLast(st, prices, i);
    }
    forall k | k in st.vals && k !in Ids(prices) {
      SetPricesUntouched(st, prices, k);
    }
  }

  lemma {:induction false} SetPricesLast<C, D>(st: Store<Record<C, D>>, prices: seq<(string, Price)>, i: int)
    requires Valid(st) && 0 <= i < |prices| && LastFor(prices, i) && prices[i].0 in st.vals
    ensures SetPrices(st, prices).vals[prices[i].0] == st.vals[prices[i].0].(price := Some(prices[i].1))
    decreases |prices|
  {
    var front := prices[..|prices| - 1];
    if i < |prices| - 1 {
      assert front[i] == prices[i];
      assert LastFor(front, i);
      SetPricesLast(st, front, i);
    }
  }

  lemma {:induction false} SetPricesUntouched<C, D>(st: Store<Record<C, D>>, prices: seq<(string, Price)>, k: string)
    requires Valid(st) && k in st.vals && k !in Ids(prices)
    ensures SetPrices(st, prices).vals[k] == st.vals[k]
    decreases |prices|
  {
    if |prices| > 0 {
      IdsOfFront(prices);
      SetPricesUntouched(st, prices[..|prices| - 1], k);
    }
  }

  /** The service-date pass changes service dates only, with the same last-row-wins rule. */
  lemma SetDatesSpec<C, D>(st: Store<Record<C, D>>, dates: seq<(string, D)>)
    requires Valid(st)
    ensures forall i :: 0 <= i < |dates| && LastFor(dates, i) && dates[i].0 in st.vals ==>
      SetDates(st, dates).vals[dates[i].0] == st.vals[dates[i].0].(serviceDate := Some(dates[i].1))
    ensures forall k :: k in st.vals && k !in Ids(dates) ==> SetDates(st, dates).vals[k] == st.vals[k]
  {
    forall i | 0 <= i < |dates| && LastFor(dates, i) && dates[i].0 in st.vals {
      SetDatesLast(st, dates, i);
    }
    forall k | k in st.vals && k !in Ids(dates) {
      SetDatesUntouched(st, dates, k);
    }
  }

  lemma {:induction false} SetDatesLast<C, D>(st: Store<Record<C, D>>, dates: seq<(string, D)>, i: int)
    requires Valid(st) && 0 <= i < |dates| && LastFor(dates, i) && dates[i].0 in st.vals
    ensures SetDates(st, dates).vals[dates[i].0] == st.vals[dates[i].0].(serviceDate := Some(dates[i].1))
    decreases |dates|
  {
    var front := dates[..|dates| - 1];
    if i < |dates| - 1 {
      assert front[i] == dates[i];
      assert LastFor(front, i);
      SetDatesLast(st, front, i);
    }
  }

  lemma {:induction false} SetDatesUntouched<C, D>(st: Store<Record<C, D>>, dates: seq<(string, D)>, k: string)
    requires Valid(st) && k in st.vals && k !in Ids(dates)
    ensures SetDates(st, dates).vals[k] == st.vals[k]
    decreases |dates|
  {
    if |dates| > 0 {
      IdsOfFront(dates);
      SetDatesUntouched(st, dates[..|dates| - 1], k);
    }
  }
}
