/** Which candidate a quote and a reservation pick, and what it costs. */
module Selection {
  import opened Prelude
  import OrderStateMachine
  import Marketplace
  import OrderServices
  import opened Pricing
  import opened Catalog

  datatype PartnerStatus = Pending | Approved | Suspended | Rejected
  datatype OfferStatus = Inactive | Active

  /** Number ids are compared as ordered values. */
  datatype Candidate = Candidate(
    numberId: nat, partnerStatus: PartnerStatus, device: Marketplace.Device, smsCapable: bool,
    numberStatus: OrderStateMachine.NumberStatus, numberEnabled: bool, hasActiveOrder: bool,
    numberCountry: string, numberOperator: string,
    offer: Filter, offerStatus: OfferStatus, basePriceIdr: nat)

  predicate Eligible(c: Candidate, filter: Filter, now: Time, heartbeatTimeoutSeconds: nat) {
    && c.partnerStatus.Approved?
    && Marketplace.IsDeviceLive(c.device, now, heartbeatTimeoutSeconds)
    && c.smsCapable
    && c.numberStatus.Available?
    && c.numberEnabled
    && !c.hasActiveOrder
    && c.offerStatus.Active?
    && c.offer == filter
    && c.numberCountry == filter.countryCode
    && c.numberOperator == filter.operatorCode
  }

  function EligibleOnes(candidates: seq<Candidate>, filter: Filter, now: Time, heartbeatTimeoutSeconds: nat): (r: seq<Candidate>)
    ensures forall c :: c in r <==> c in candidates && Eligible(c, filter, now, heartbeatTimeoutSeconds)
  {
    if candidates == [] then []
    else
      var last := candidates[|candidates| - 1];
      EligibleOnes(candidates[..|candidates| - 1], filter, now, heartbeatTimeoutSeconds)
      + if Eligible(last, filter, now, heartbeatTimeoutSeconds) then [last] else []
  }

  // ---------------------------------------------------------------------------
  // Sorting by id
  // ---------------------------------------------------------------------------

  predicate SortedById(s: seq<Candidate>) { forall i, j :: 0 <= i < j < |s| ==> s[i].numberId <= s[j].numberId }

  /** Keeps equal ids in their order. */
  function Insert(c: Candidate, s: seq<Candidate>): seq<Candidate> {
    if s == [] || c.numberId <= s[0].numberId then [c] + s else [s[0]] + Insert(c, s[1..])
  }

  function SortById(s: seq<Candidate>): seq<Candidate> {
    if s == [] then [] else Insert(s[0], SortById(s[1..]))
  }

  lemma {:induction false} InsertAdds(c: Candidate, s: seq<Candidate>)
    ensures multiset(Insert(c, s)) == multiset(s) + multiset{c}
  {
    if s != [] && c.numberId > s[0].numberId {
      InsertAdds(c, s[1..]);
      assert s == [s[0]] + s[1..];
    }
  }

  lemma {:induction false} InsertSorted(c: Candidate, s: seq<Candidate>)
    requires SortedById(s)
    ensures SortedById(Insert(c, s))
    ensures Insert(c, s) != [] && Insert(c, s)[0].numberId == if s == [] || c.numberId <= s[0].numberId then c.numberId else s[0].numberId
  {
    if s != [] && c.numberId > s[0].numberId {
      InsertSorted(c, s[1..]);
    }
  }

  /** Sorting orders by id and keeps every candidate. */
  lemma {:induction false} SortSorts(s: seq<Candidate>)
    ensures SortedById(SortById(s)) && multiset(SortById(s)) == multiset(s)
  {
    if s == [] {
    } else {
      SortSorts(s[1..]);
      InsertSorted(s[0], SortById(s[1..]));
      InsertAdds(s[0], SortById(s[1..]));
      assert s == [s[0]] + s[1..];
    }
  }

  // ---------------------------------------------------------------------------
  // Selection
  // ---------------------------------------------------------------------------

  function Select(candidates: seq<Candidate>, filter: Filter, now: Time, heartbeatTimeoutSeconds: nat): Option<Candidate> {
    var sorted := SortById(EligibleOnes(candidates, filter, now, heartbeatTimeoutSeconds));
    if sorted == [] then None else Some(sorted[0])
  }

  /** The filter loop and the sort, as the program runs them. */
  method SelectEligibleInventory(candidates: seq<Candidate>, filter: Filter, now: Time, heartbeatTimeoutSeconds: nat)
    returns (selected: Option<Candidate>)
    ensures selected == Select(candidates, filter, now, heartbeatTimeoutSeconds)
  {
    var eligible := [];
    for i := 0 to |candidates|
      invariant eligible == EligibleOnes(candidates[..i], filter, now, heartbeatTimeoutSeconds)
    {
      assert candidates[..i + 1][..i] == candidates[..i];
      if Eligible(candidates[i], filter, now, heartbeatTimeoutSeconds) {
        eligible := eligible + [candidates[i]];
      }
    }
    assert candidates[..|candidates|] == candidates;
    eligible := SortById(eligible);
    selected := if eligible == [] then None else Some(eligible[0]);
  }

  /** Nothing is selected exactly when nothing is eligible; what is selected is eligible and no
      eligible candidate has a smaller id. */
  lemma SelectsTheLeastEligible(candidates: seq<Candidate>, filter: Filter, now: Time, heartbeatTimeoutSeconds: nat)
    ensures match Select(candidates, filter, now, heartbeatTimeoutSeconds)
            case None => forall c <- candidates :: !Eligible(c, filter, now, heartbeatTimeoutSeconds)
            case Some(s) =>
              && s in candidates && Eligible(s, filter, now, heartbeatTimeoutSeconds)
              && forall c <- candidates :: Eligible(c, filter, now, heartbeatTimeoutSeconds) ==> s.numberId <= c.numberId
  {
    var eligible := EligibleOnes(candidates, filter, now, heartbeatTimeoutSeconds);
    var sorted := SortById(eligible);
    SortSorts(eligible);
    forall c ensures c in sorted <==> c in eligible {
      assert c in sorted <==> c in multiset(sorted);
      assert c in eligible <==> c in multiset(eligible);
    }
    forall c <- candidates | Eligible(c, filter, now, heartbeatTimeoutSeconds)
      ensures sorted != [] && sorted[0].numberId <= c.numberId
    {
      assert c in sorted;
      var i :| 0 <= i < |sorted| && sorted[i] == c;
    }
  }

  /** Everything that has to be right about what is sold, in one place: partner, device, number, offer and
      dimension. */
  predicate FitToSell(c: Candidate, filter: Filter, now: Time, heartbeatTimeoutSeconds: nat) {
    && c.partnerStatus == Approved && c.smsCapable
    && c.device.status == OrderStateMachine.Online
    && c.device.lastSeenAt.Some? && now <= c.device.lastSeenAt.value + 1000 * heartbeatTimeoutSeconds
    && c.numberStatus == OrderStateMachine.Available && c.numberEnabled && !c.hasActiveOrder
    && c.offerStatus == Active
    && c.offer.serviceCode == filter.serviceCode
    && c.offer.countryCode == filter.countryCode == c.numberCountry
    && c.offer.operatorCode == filter.operatorCode == c.numberOperator
  }

  /** What is selected is fit to be sold, and whatever is fit is passed over only for a smaller id. */
  lemma SelectsWhatIsFitToSell(candidates: seq<Candidate>, filter: Filter, now: Time, heartbeatTimeoutSeconds: nat)
    ensures match Select(candidates, filter, now, heartbeatTimeoutSeconds)
            case None => forall c <- candidates :: !FitToSell(c, filter, now, heartbeatTimeoutSeconds)
            case Some(s) =>
              && s in candidates && FitToSell(s, filter, now, heartbeatTimeoutSeconds)
              && forall c <- candidates :: FitToSell(c, filter, now, heartbeatTimeoutSeconds) ==> s.numberId <= c.numberId
  {
    SelectsTheLeastEligible(candidates, filter, now, heartbeatTimeoutSeconds);
  }

  /** The candidate was read from the rows as they are. */
  predicate ReadFrom(db: Marketplace.Db, c: Candidate) {
    && c.numberId in db.numbers
    && var number := db.numbers[c.numberId];
    && number.status == c.numberStatus && number.enabled == c.numberEnabled && number.currentOrder.Some? == c.hasActiveOrder
  }

  /** The number a reservation selects under its locks can be reserved: the transaction goes through. */
  lemma SelectedNumberCanBeReserved(db: Marketplace.Db, candidates: seq<Candidate>, filter: Filter, now: Time,
                                    heartbeatTimeoutSeconds: nat, o: Marketplace.OrderId)
    requires (forall c <- candidates :: ReadFrom(db, c)) && o !in db.orders
    requires Select(candidates, filter, now, heartbeatTimeoutSeconds).Some?
    ensures OrderServices.CanReserve(db, o, Select(candidates, filter, now, heartbeatTimeoutSeconds).value.numberId)
  {
    SelectsWhatIsFitToSell(candidates, filter, now, heartbeatTimeoutSeconds);
  }

  predicate UniqueIds(candidates: seq<Candidate>) {
    forall c <- candidates, d <- candidates :: c.numberId == d.numberId ==> c == d
  }

  /** The reservation locks some of the quoted candidates, in any order and perhaps not all of them, but
      among them the one that was quoted; each is as eligible at one time as at the other. */
  predicate StillOffered(quoted: seq<Candidate>, locked: seq<Candidate>, filter: Filter,
                         quotedAt: Time, quotedTimeout: nat, reservedAt: Time, reservedTimeout: nat) {
    && (forall c <- locked :: c in quoted)
    && (forall c <- quoted :: Eligible(c, filter, quotedAt, quotedTimeout) <==> Eligible(c, filter, reservedAt, reservedTimeout))
    && var winner := Select(quoted, filter, quotedAt, quotedTimeout);
    && (winner.Some? ==> winner.value in locked)
  }

  /** The selection depends neither on the order in which candidates arrive, nor on locking only a
      part of them, as long as the winner is still offered. */
  lemma SelectionIgnoresOrder(quoted: seq<Candidate>, locked: seq<Candidate>, filter: Filter,
                              quotedAt: Time, quotedTimeout: nat, reservedAt: Time, reservedTimeout: nat)
    requires UniqueIds(quoted) && StillOffered(quoted, locked, filter, quotedAt, quotedTimeout, reservedAt, reservedTimeout)
    ensures Select(quoted, filter, quotedAt, quotedTimeout) == Select(locked, filter, reservedAt, reservedTimeout)
  {
    SelectsTheLeastEligible(quoted, filter, quotedAt, quotedTimeout);
    SelectsTheLeastEligible(locked, filter, reservedAt, reservedTimeout);
  }

  datatype Quote = CatalogMismatch | QuoteExpired | Stockout(version: int) | Priced(version: int, numberId: nat, pricing: Pricing)

  /** What a buyer is quoted. */
  function QuoteFor(m: Market, candidates: seq<Candidate>, filter: Filter, now: Time, heartbeatTimeoutSeconds: nat): Quote
    requires MarketOk(m)
  {
    match InForce(m, filter)
    case None => CatalogMismatch
    case Some(config) =>
      match Select(candidates, filter, now, heartbeatTimeoutSeconds)
      case None => Stockout(ActiveConfig(m).version)
      case Some(c) => Priced(ActiveConfig(m).version, c.numberId, Calculate(c.basePriceIdr as real, config))
  }

  /** What a reservation carrying a quote's version charges. */
  function ReserveAt(m: Market, quoteVersion: int, candidates: seq<Candidate>, filter: Filter, now: Time, heartbeatTimeoutSeconds: nat): Quote
    requires MarketOk(m)
  {
    if InForce(m, filter).None? then CatalogMismatch
    else if quoteVersion != ActiveConfig(m).version then QuoteExpired
    else QuoteFor(m, candidates, filter, now, heartbeatTimeoutSeconds)
  }

  /** From a declared catalog onward a reservation is refused exactly when its dimension has been
      withdrawn or another configuration has been published since; otherwise, as long as the number is
      still offered, it takes the very number that was quoted at the very price. */
  lemma ReservationHonoursItsQuote(
    m: Market, changes: seq<Change>, filter: Filter, quoted: seq<Candidate>, locked: seq<Candidate>,
    quotedAt: Time, quotedTimeout: nat, reservedAt: Time, reservedTimeout: nat)
    requires MarketOk(m) && m.rows != [] && InForce(m, filter).Some?
    requires UniqueIds(quoted) && StillOffered(quoted, locked, filter, quotedAt, quotedTimeout, reservedAt, reservedTimeout)
    ensures var n := Evolve(m, changes);
            ReserveAt(n, ActiveConfig(m).version, locked, filter, reservedAt, reservedTimeout) ==
              if !exists d <- n.rows :: d.enabled && d.triple == filter then CatalogMismatch
              else if n.active != m.active then QuoteExpired
              else QuoteFor(m, quoted, filter, quotedAt, quotedTimeout)
  {
    QuoteVersionIsSound(m, changes, filter);
    EvolveKeeps(m, changes);
    SelectionIgnoresOrder(quoted, locked, filter, quotedAt, quotedTimeout, reservedAt, reservedTimeout);
    ServedExactlyWhenEnabled(Evolve(m, changes), filter);
  }

  lemma ServedExactlyWhenEnabled(m: Market, filter: Filter)
    requires MarketOk(m) && m.rows != []
    ensures InForce(m, filter).Some? <==> exists d <- m.rows :: d.enabled && d.triple == filter
  {
    RowForFinds(m.rows, filter);
    if exists d <- m.rows :: d.enabled && d.triple == filter {
      var d :| d in m.rows && d.enabled && d.triple == filter;
      var i :| 0 <= i < |m.rows| && m.rows[i] == d;
    }
    if InForce(m, filter).Some? {
      var i :| 0 <= i < |m.rows| && m.rows[i].triple == filter;
      assert m.rows[i] in m.rows;
    }
  }
}
