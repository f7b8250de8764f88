/**
  The preference matcher, `find_best_match`: a boolean mask over the catalog
  keeps the cars within budget and mileage whose lower-cased name contains
  the requested fragment and whose fuel and transmission indicators are set
  (an indicator column the table lacks imposes nothing).  The first surviving
  car wins; when none survives, the car whose price is closest to the budget
  is chosen instead.
*/
module Matching {
  import opened Wrappers
  import opened Seqs
  import opened Text

  /**
    One catalog row, with the cells the matcher reads.  `flags` holds the
    one-hot indicator cells by column name.
  */
  datatype Car = Car(name: string, price: real, kms: real, flags: map<string, int>)

  /** The table: its column names and its rows, at positions 0 .. N-1. */
  datatype Catalog = Catalog(columns: seq<string>, rows: seq<Car>)

  /** The five arguments of `find_best_match`. */
  datatype Preferences = Preferences(
    carName: string, maxPrice: real, maxKms: real, fuelType: string, transmissionType: string)

  /** What `find_best_match` can raise. */
  datatype MatchError = KeyError(column: string) | ValueError

  /** What line 108 hands back as written: a row label, a column label, or `None`. */
  datatype Returned = RowLabel(position: nat) | ColumnLabel(name: string) | NoneValue

  /** The columns the mask reads, in the order Python evaluates them. */
  const Required: seq<string> := ["Price", "KM's driven", "Car Name"]

  predicate HasRequired(columns: seq<string>)
  {
    forall c :: c in Required ==> c in columns
  }

  /** The column whose lookup raises KeyError first, if any. */
  function FirstMissing(columns: seq<string>): (r: Option<string>)
    ensures r.None? <==> HasRequired(columns)
    ensures r.Some? ==> r.value in Required && r.value !in columns
    ensures r.Some? ==> forall j :: 0 <= j < |Required| && Required[j] == r.value ==>
      forall i :: 0 <= i < j ==> Required[i] in columns
  {
    if Required[0] !in columns then Some(Required[0])
    else if Required[1] !in columns then Some(Required[1])
    else if Required[2] !in columns then Some(Required[2])
    else None
  }

  /** The indicator cell is 1; a row without the cell holds NaN, which is not 1. */
  predicate FlagSet(car: Car, column: string)
  {
    column in car.flags && car.flags[column] == 1
  }

  /** `df[column] == 1 if column in df.columns else True`, for one row. */
  predicate IndicatorOk(columns: seq<string>, car: Car, column: string)
  {
    column in columns ==> FlagSet(car, column)
  }

  function FuelColumn(q: Preferences): string { "Fuel_" + q.fuelType }

  function TransmissionColumn(q: Preferences): string { "Transmission_" + q.transmissionType }

  /** The mask of lines 97-101 at one row; the fragment is a plain substring, not a pattern. */
  predicate Passes(columns: seq<string>, q: Preferences, car: Car)
    ensures FuelColumn(q) !in columns && TransmissionColumn(q) !in columns ==>
      (Passes(columns, q, car) <==>
         car.price <= q.maxPrice && car.kms <= q.maxKms && Contains(Lower(car.name), q.carName))
  {
    && car.price <= q.maxPrice
    && car.kms <= q.maxKms
    && Contains(Lower(car.name), q.carName)
    && IndicatorOk(columns, car, FuelColumn(q))
    && IndicatorOk(columns, car, TransmissionColumn(q))
  }

  function Positions(n: nat): (r: seq<nat>)
    ensures |r| == n
    ensures forall i :: 0 <= i < n ==> r[i] == i
  {
    seq(n, i requires 0 <= i < n => i)
  }

  function Mask(cat: Catalog, q: Preferences): nat -> bool
  {
    (i: nat) => i < |cat.rows| && Passes(cat.columns, q, cat.rows[i])
  }

  /** The positions of `filtered_df`, in catalog order. */
  function Survivors(cat: Catalog, q: Preferences): (r: seq<nat>)
    ensures forall i: nat :: i in r <==> i < |cat.rows| && Passes(cat.columns, q, cat.rows[i])
    ensures IsSubsequence(r, Positions(|cat.rows|))
  {
    var ps := Positions(|cat.rows|);
    assert forall i: nat :: i in ps <==> i < |cat.rows| by {
      forall i: nat ensures i in ps <==> i < |cat.rows| {
        if i < |cat.rows| { assert ps[i] == i; }
      }
    }
    FilterIsSubsequence(ps, Mask(cat, q));
    Filter(ps, Mask(cat, q))
  }

  /** `abs(price - budget)`. */
  function Distance(car: Car, budget: real): (r: real)
    ensures r >= 0.0 && r >= car.price - budget && r >= budget - car.price
    ensures r == car.price - budget || r == budget - car.price
    ensures r == 0.0 <==> car.price == budget
  {
    if car.price >= budget then car.price - budget else budget - car.price
  }

  /**
    `(df['Price'] - max_price).abs().idxmin()`: the position of the smallest
    distance to the budget, the first one on ties.
  */
  function ClosestPrice(rows: seq<Car>, budget: real): (r: nat)
    requires rows != []
    ensures r < |rows|
    ensures forall j :: 0 <= j < |rows| ==> Distance(rows[r], budget) <= Distance(rows[j], budget)
    ensures forall j :: 0 <= j < r ==> Distance(rows[j], budget) > Distance(rows[r], budget)
  {
    if |rows| == 1 then 0
    else
      var k := 1 + ClosestPrice(rows[1..], budget);
      assert forall j :: 1 <= j < |rows| ==> rows[j] == rows[1..][j - 1];
      if Distance(rows[0], budget) <= Distance(rows[k], budget) then 0 else k
  }

  /**
    `find_best_match` with the fallback returning the position of the
    closest-priced car, and `None` for an empty catalog.
  */
  function FindBestMatch(cat: Catalog, q: Preferences): (r: Result<Option<nat>, MatchError>)
    ensures r.Err? <==> !HasRequired(cat.columns)
    ensures r.Err? ==> r.error.KeyError? && r.error.column in Required
    ensures r.Ok? ==> (r.value.None? <==> cat.rows == [])
    ensures r.Ok? && r.value.Some? ==> r.value.value < |cat.rows|
  {
    match FirstMissing(cat.columns)
    case Some(col) => Err(KeyError(col))
    case None =>
      var survivors := Survivors(cat, q);
      if survivors != [] then
        assert survivors[0] in survivors;
        Ok(Some(survivors[0]))
      else if cat.rows == [] then Ok(None)
      else Ok(Some(ClosestPrice(cat.rows, q.maxPrice)))
  }

  /**
    `find_best_match` as written: on the fallback path `df.loc[...]` is a
    single row, a Series indexed by the column names, so `.index[0]` is the
    first column name; on an empty catalog `idxmin` raises ValueError.
  */
  function FindBestMatchAsWritten(cat: Catalog, q: Preferences): (r: Result<Returned, MatchError>)
    ensures r.Err? <==> !HasRequired(cat.columns) || cat.rows == []
    ensures r.Ok? ==> !r.value.NoneValue?
  {
    match FirstMissing(cat.columns)
    case Some(col) => Err(KeyError(col))
    case None =>
      var survivors := Survivors(cat, q);
      if survivors != [] then
        Ok(RowLabel(survivors[0]))
      else if cat.rows == [] then Err(ValueError)
      else
        assert "Price" in cat.columns;
        Ok(ColumnLabel(cat.columns[0]))
  }

  /**
    When some car passes every filter, the match is the first such car in
    catalog order: within budget and mileage, its lower-cased name containing
    the fragment, and its fuel and transmission indicators set wherever the
    table has those columns.
  */
  lemma BestMatchIsFirstSurvivor(cat: Catalog, q: Preferences, i: nat)
    requires HasRequired(cat.columns)
    requires i < |cat.rows| && Passes(cat.columns, q, cat.rows[i])
    ensures FindBestMatch(cat, q).Ok? && FindBestMatch(cat, q).value.Some?
    ensures var m := FindBestMatch(cat, q).value.value;
      && m <= i
      && cat.rows[m].price <= q.maxPrice
      && cat.rows[m].kms <= q.maxKms
      && Contains(Lower(cat.rows[m].name), q.carName)
      && (FuelColumn(q) in cat.columns ==> FlagSet(cat.rows[m], FuelColumn(q)))
      && (TransmissionColumn(q) in cat.columns ==> FlagSet(cat.rows[m], TransmissionColumn(q)))
      && (forall j :: 0 <= j < m ==> !Passes(cat.columns, q, cat.rows[j]))
  {
    var survivors := Survivors(cat, q);
    assert i in survivors;
    var h := FilterHead(Positions(|cat.rows|), Mask(cat, q));
    assert h == survivors[0];
    forall j | 0 <= j < h ensures !Passes(cat.columns, q, cat.rows[j]) {
      assert !Mask(cat, q)(Positions(|cat.rows|)[j]);
    }
  }

  /**
    When no car passes and the catalog is not empty, the match is the car
    whose price is closest to the budget, the lowest position on ties.
  */
  lemma BestMatchFallback(cat: Catalog, q: Preferences)
    requires HasRequired(cat.columns) && cat.rows != []
    requires forall i :: 0 <= i < |cat.rows| ==> !Passes(cat.columns, q, cat.rows[i])
    ensures FindBestMatch(cat, q).Ok? && FindBestMatch(cat, q).value.Some?
    ensures var m := FindBestMatch(cat, q).value.value;
      && m < |cat.rows|
      && (forall j :: 0 <= j < |cat.rows| ==>
            Distance(cat.rows[m], q.maxPrice) <= Distance(cat.rows[j], q.maxPrice))
      && (forall j :: 0 <= j < m ==>
            Distance(cat.rows[j], q.maxPrice) > Distance(cat.rows[m], q.maxPrice))
  {
  }

  /** An empty catalog gives no match, whatever the preferences. */
  lemma EmptyCatalogNoMatch(columns: seq<string>, q: Preferences)
    requires HasRequired(columns)
    ensures FindBestMatch(Catalog(columns, []), q) == Ok(None)
  {
  }

  /**
    The fallback relaxes every filter: a single car over budget is still
    returned for a budget it exceeds.
  */
  lemma FallbackIgnoresBudget(columns: seq<string>, q: Preferences, car: Car)
    requires HasRequired(columns)
    requires car.price > q.maxPrice
    ensures FindBestMatch(Catalog(columns, [car]), q) == Ok(Some(0))
  {
  }

  /** Where a car passes every filter, the code as written returns the same position. */
  lemma AsWrittenAgreesOnMatch(cat: Catalog, q: Preferences, i: nat)
    requires HasRequired(cat.columns)
    requires i < |cat.rows| && Passes(cat.columns, q, cat.rows[i])
    ensures FindBestMatch(cat, q).Ok? && FindBestMatch(cat, q).value.Some?
    ensures FindBestMatchAsWritten(cat, q) == Ok(RowLabel(FindBestMatch(cat, q).value.value))
  {
  }

  /**
    On the fallback path the code as written returns the first column name of
    the table instead of a row position.
  */
  lemma FallbackReturnsColumnLabel(cat: Catalog, q: Preferences)
    requires HasRequired(cat.columns) && cat.rows != []
    requires forall i :: 0 <= i < |cat.rows| ==> !Passes(cat.columns, q, cat.rows[i])
    ensures |cat.columns| > 0
    ensures FindBestMatchAsWritten(cat, q) == Ok(ColumnLabel(cat.columns[0]))
  {
    assert Required[0] in cat.columns;
  }

  /** On an empty catalog the code as written raises ValueError from `idxmin`. */
  lemma EmptyCatalogRaises(columns: seq<string>, q: Preferences)
    requires HasRequired(columns)
    ensures FindBestMatchAsWritten(Catalog(columns, []), q) == Err(ValueError)
  {
  }
}
