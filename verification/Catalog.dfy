/** The served catalog: which dimensions are sold, at which pricing, and for how long a quote binds. */
module Catalog {
  import opened Prelude
  import opened Pricing

  datatype Filter = Filter(serviceCode: string, countryCode: string, operatorCode: string)

  /** An absent override inherits the platform's value. */
  datatype Dimension = Dimension(
    triple: Filter, enabled: bool,
    minBasePriceIdr: Option<int>, maxBasePriceIdr: Option<int>, fixedFeeIdr: Option<int>,
    markupBps: Option<int>, roundToIdr: Option<int>)

  datatype Lookup = Lookup(dimension: Option<Dimension>, declared: bool)

  datatype Snapshot = Snapshot(dimensions: seq<Dimension>, declared: bool)

  function ConfigDimension(config: PricingConfig): Dimension {
    Dimension(Filter(config.serviceCode, config.countryCode, config.operatorCode), true, None, None, None, None, None)
  }

  function ResolveServedCatalog(snapshot: Snapshot, config: PricingConfig): seq<Dimension> {
    if snapshot.declared then snapshot.dimensions else [ConfigDimension(config)]
  }

  function ResolveServedDimension(lookup: Lookup, config: PricingConfig, filter: Filter): Option<Dimension> {
    if !lookup.declared then
      if ConfigDimension(config).triple == filter then Some(ConfigDimension(config)) else None
    else if lookup.dimension.Some? && lookup.dimension.value.enabled then lookup.dimension
    else None
  }

  /** The first enabled dimension that matches. */
  function FindEnabled(dimensions: seq<Dimension>, filter: Filter): Option<Dimension> {
    if dimensions == [] then None
    else if dimensions[0].enabled && dimensions[0].triple == filter then Some(dimensions[0])
    else FindEnabled(dimensions[1..], filter)
  }

  /** It finds an enabled dimension of that triple if and only if there is one. */
  lemma {:induction false} FindsExactlyTheEnabled(dimensions: seq<Dimension>, filter: Filter)
    ensures match FindEnabled(dimensions, filter)
            case None => forall d <- dimensions :: !(d.enabled && d.triple == filter)
            case Some(d) => d in dimensions && d.enabled && d.triple == filter
  {
    if dimensions == [] {
    } else {
      FindsExactlyTheEnabled(dimensions[1..], filter);
    }
  }

  function ResolvePricing(dimension: Dimension, config: PricingConfig): PricingConfig {
    config.(serviceCode := dimension.triple.serviceCode,
            countryCode := dimension.triple.countryCode,
            operatorCode := dimension.triple.operatorCode,
            minBasePriceIdr := dimension.minBasePriceIdr.GetOr(config.minBasePriceIdr),
            maxBasePriceIdr := dimension.maxBasePriceIdr.GetOr(config.maxBasePriceIdr),
            fixedFeeIdr := dimension.fixedFeeIdr.GetOr(config.fixedFeeIdr),
            markupBps := dimension.markupBps.GetOr(config.markupBps),
            roundToIdr := dimension.roundToIdr.GetOr(config.roundToIdr))
  }

  // ---------------------------------------------------------------------------
  // Reading the table
  // ---------------------------------------------------------------------------

  predicate UniqueTriples(rows: seq<Dimension>) {
    forall i, j :: 0 <= i < j < |rows| ==> rows[i].triple != rows[j].triple
  }

  function EnabledRows(rows: seq<Dimension>): seq<Dimension> {
    if rows == [] then [] else (if rows[0].enabled then [rows[0]] else []) + EnabledRows(rows[1..])
  }

  /** The list read keeps enabled rows only, but reports whether any row exists. */
  function ReadCatalog(rows: seq<Dimension>): Snapshot { Snapshot(EnabledRows(rows), rows != []) }

  function RowFor(rows: seq<Dimension>, filter: Filter): Option<Dimension> {
    if rows == [] then None else if rows[0].triple == filter then Some(rows[0]) else RowFor(rows[1..], filter)
  }

  /** The point read returns the row whether it is enabled or not. */
  function ReadDimension(rows: seq<Dimension>, filter: Filter): Lookup { Lookup(RowFor(rows, filter), rows != []) }

  lemma {:induction false} RowForFinds(rows: seq<Dimension>, filter: Filter)
    requires UniqueTriples(rows)
    ensures RowFor(rows, filter).None? <==> forall i :: 0 <= i < |rows| ==> rows[i].triple != filter
    ensures forall i :: 0 <= i < |rows| && rows[i].triple == filter ==> RowFor(rows, filter) == Some(rows[i])
  {
    if rows == [] {
    } else {
      RowForFinds(rows[1..], filter);
    }
  }

  lemma {:induction false} EnabledLookup(rows: seq<Dimension>, filter: Filter)
    requires UniqueTriples(rows)
    ensures FindEnabled(EnabledRows(rows), filter) ==
              if RowFor(rows, filter).Some? && RowFor(rows, filter).value.enabled then RowFor(rows, filter) else None
  {
    if rows == [] {
    } else {
      EnabledLookup(rows[1..], filter);
      RowForFinds(rows[1..], filter);
      assert forall i :: 0 <= i < |rows| - 1 ==> rows[1..][i] == rows[i + 1];
      if rows[0].enabled { assert EnabledRows(rows)[1..] == EnabledRows(rows[1..]); }
      else { assert EnabledRows(rows) == EnabledRows(rows[1..]); }
    }
  }

  /** Offer validation, which searches the list, and reservation, which looks up one row, accept the
      same dimensions at the same row, the fallback for an undeclared catalog included. */
  lemma PointLookupAgreesWithListLookup(rows: seq<Dimension>, config: PricingConfig, filter: Filter)
    requires UniqueTriples(rows)
    ensures ResolveServedDimension(ReadDimension(rows, filter), config, filter)
            == FindEnabled(ResolveServedCatalog(ReadCatalog(rows), config), filter)
  {
    EnabledLookup(rows, filter);
  }

  // ---------------------------------------------------------------------------
  // Valid declarations and valid pricing
  // ---------------------------------------------------------------------------

  const INT4_MAX: int := 0x7FFF_FFFF

  predicate OverrideOk(value: Option<int>, minimum: int) { value.None? || minimum <= value.value <= INT4_MAX }

  /** What declaration guarantees of a row. */
  predicate DeclaredOk(d: Dimension) {
    && |d.triple.serviceCode| > 0 && |d.triple.countryCode| == 2 && |d.triple.operatorCode| > 0
    && OverrideOk(d.minBasePriceIdr, 0) && OverrideOk(d.maxBasePriceIdr, 0) && OverrideOk(d.fixedFeeIdr, 0)
    && OverrideOk(d.markupBps, 0) && OverrideOk(d.roundToIdr, 1)
    && (d.minBasePriceIdr.Some? && d.maxBasePriceIdr.Some? ==> d.minBasePriceIdr.value <= d.maxBasePriceIdr.value)
  }

  /** A declared dimension over a valid configuration prices validly exactly when its resolved bounds
      are in order: overriding a single bound can put them out of order. */
  lemma ResolvedPricingValidExactlyWhenBoundsInOrder(d: Dimension, config: PricingConfig)
    requires DeclaredOk(d) && ValidConfig(config)
    ensures ValidConfig(ResolvePricing(d, config))
            <==> d.minBasePriceIdr.GetOr(config.minBasePriceIdr) <= d.maxBasePriceIdr.GetOr(config.maxBasePriceIdr)
  {
  }

  /** A half override that inverts the guardrail, so that no base price at all can be offered. */
  lemma HalfOverrideCanInvertTheGuardrail(config: PricingConfig, basePriceIdr: real)
    requires ValidConfig(config) && config.minBasePriceIdr > 0
    ensures var d := ConfigDimension(config).(maxBasePriceIdr := Some(0));
            DeclaredOk(d) && Calculate(basePriceIdr, ResolvePricing(d, config)) == Err(InvalidConfig)
  {
  }

  // ---------------------------------------------------------------------------
  // How long a quote binds
  // ---------------------------------------------------------------------------

  /** Published configurations are never edited; one of them is active. */
  datatype Market = Market(published: map<int, PricingConfig>, active: int, rows: seq<Dimension>)

  predicate MarketOk(m: Market) {
    && m.active in m.published
    && (forall v <- m.published :: m.published[v].version == v)
    && UniqueTriples(m.rows)
  }

  function ActiveConfig(m: Market): PricingConfig
    requires MarketOk(m)
  { m.published[m.active] }

  datatype Change =
    | Publish(config: PricingConfig)
    | Declare(dimension: Dimension)
    | Toggle(triple: Filter, enabled: bool)

  function ToggleRow(rows: seq<Dimension>, triple: Filter, enabled: bool): (r: seq<Dimension>)
    ensures |r| == |rows|
    ensures forall i :: 0 <= i < |rows| ==> r[i] == if rows[i].triple == triple then rows[i].(enabled := enabled) else rows[i]
  {
    seq(|rows|, i requires 0 <= i < |rows| => if rows[i].triple == triple then rows[i].(enabled := enabled) else rows[i])
  }

  /** A version is published once; a triple is declared once; rows are never deleted or repriced. */
  function Apply(m: Market, change: Change): Market {
    match change
    case Publish(config) =>
      if config.version in m.published then m
      else m.(published := m.published[config.version := config], active := config.version)
    case Declare(dimension) =>
      if RowFor(m.rows, dimension.triple).Some? then m else m.(rows := m.rows + [dimension])
    case Toggle(triple, enabled) => m.(rows := ToggleRow(m.rows, triple, enabled))
  }

  function Evolve(m: Market, changes: seq<Change>): (n: Market)
    requires MarketOk(m)
    ensures MarketOk(n)
    decreases |changes|
  {
    if changes == [] then m
    else ApplyKeeps(m, changes[0]); Evolve(Apply(m, changes[0]), changes[1..])
  }

  function Served(m: Market, filter: Filter): Option<Dimension>
    requires MarketOk(m)
  {
    ResolveServedDimension(ReadDimension(m.rows, filter), ActiveConfig(m), filter)
  }

  /** The pricing in force for a filter, which quote and reservation both compute. */
  function InForce(m: Market, filter: Filter): Option<PricingConfig>
    requires MarketOk(m)
  {
    match Served(m, filter)
    case None => None
    case Some(d) => Some(ResolvePricing(d, ActiveConfig(m)))
  }

  /** A reservation succeeds in pricing exactly when the dimension is served and the quote's version is
      still the active one. */
  function ReservePricing(m: Market, filter: Filter, quoteVersion: int): Option<PricingConfig>
    requires MarketOk(m)
  {
    if Served(m, filter).None? || quoteVersion != ActiveConfig(m).version then None else InForce(m, filter)
  }

  predicate SamePrices(d: Dimension, e: Dimension) { d.(enabled := true) == e.(enabled := true) }

  /** Rows stay where they are and keep their overrides; published configurations stay as they are. */
  predicate Grows(m: Market, n: Market) {
    && |m.rows| <= |n.rows| && (forall i :: 0 <= i < |m.rows| ==> SamePrices(m.rows[i], n.rows[i]))
    && (forall v <- m.published :: v in n.published && n.published[v] == m.published[v])
  }

  lemma ApplyKeeps(m: Market, change: Change)
    requires MarketOk(m)
    ensures MarketOk(Apply(m, change)) && Grows(m, Apply(m, change))
  {
    if change.Declare? { RowForFinds(m.rows, change.dimension.triple); }
  }

  lemma {:induction false} EvolveKeeps(m: Market, changes: seq<Change>)
    requires MarketOk(m)
    ensures Grows(m, Evolve(m, changes))
    decreases |changes|
  {
    if changes == [] {
    } else {
      ApplyKeeps(m, changes[0]);
      EvolveKeeps(Apply(m, changes[0]), changes[1..]);
    }
  }

  lemma RowKeepsItsPrices(m: Market, n: Market, filter: Filter)
    requires MarketOk(m) && MarketOk(n) && Grows(m, n) && RowFor(m.rows, filter).Some?
    ensures RowFor(n.rows, filter).Some? && SamePrices(RowFor(m.rows, filter).value, RowFor(n.rows, filter).value)
  {
    RowForFinds(m.rows, filter);
    RowForFinds(n.rows, filter);
    var i :| 0 <= i < |m.rows| && m.rows[i].triple == filter;
    assert n.rows[i].triple == filter;
  }

  /** From a declared catalog onward, over any publishes, declarations and toggles, a reservation that
      passes the version check uses the very pricing its quote used. */
  lemma QuoteVersionIsSound(m: Market, changes: seq<Change>, filter: Filter)
    requires MarketOk(m) && m.rows != [] && InForce(m, filter).Some?
    ensures var reserved := ReservePricing(Evolve(m, changes), filter, ActiveConfig(m).version);
            reserved.Some? ==> reserved == InForce(m, filter)
  {
    EvolveKeeps(m, changes);
    RowKeepsItsPrices(m, Evolve(m, changes), filter);
  }

  /** No override of the dimension differs from the configuration's own value. */
  predicate OverridesNothing(d: Dimension, config: PricingConfig) {
    && d.minBasePriceIdr.GetOr(config.minBasePriceIdr) == config.minBasePriceIdr
    && d.maxBasePriceIdr.GetOr(config.maxBasePriceIdr) == config.maxBasePriceIdr
    && d.fixedFeeIdr.GetOr(config.fixedFeeIdr) == config.fixedFeeIdr
    && d.markupBps.GetOr(config.markupBps) == config.markupBps
    && d.roundToIdr.GetOr(config.roundToIdr) == config.roundToIdr
  }

  /** A quote made before any dimension was declared is honoured exactly when the row that has since
      been declared for its dimension, if any, overrides nothing. */
  lemma UndeclaredQuoteHonouredExactlyWhenNothingIsOverridden(m: Market, changes: seq<Change>, filter: Filter)
    requires MarketOk(m) && m.rows == [] && InForce(m, filter).Some?
    requires ReservePricing(Evolve(m, changes), filter, ActiveConfig(m).version).Some?
    ensures var n := Evolve(m, changes);
            ReservePricing(n, filter, ActiveConfig(m).version) == InForce(m, filter)
            <==> (n.rows == [] || OverridesNothing(RowFor(n.rows, filter).value, ActiveConfig(m)))
  {
    EvolveKeeps(m, changes);
    var n := Evolve(m, changes);
    RowForFinds(n.rows, filter);
  }

  /** The first declaration can change a price without expiring its quotes. */
  lemma FirstDeclarationCanRepriceALiveQuote(config: PricingConfig, fee: int)
    requires ValidConfig(config) && fee != config.fixedFeeIdr
    ensures var m := Market(map[config.version := config], config.version, []);
            var filter := ConfigDimension(config).triple;
            var n := Apply(m, Declare(ConfigDimension(config).(fixedFeeIdr := Some(fee))));
            && MarketOk(m) && MarketOk(n)
            && ReservePricing(n, filter, ActiveConfig(m).version).Some?
            && ReservePricing(n, filter, ActiveConfig(m).version) != InForce(m, filter)
  {
    var m := Market(map[config.version := config], config.version, []);
    var d := ConfigDimension(config).(fixedFeeIdr := Some(fee));
    assert Apply(m, Declare(d)).rows == [d];
  }
}
