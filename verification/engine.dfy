/**
 * The auction state engine: the bid-submission pipeline, the derived auction
 * view, and the object that owns the ledger and the status store and applies
 * submissions and admin actions to them.
 */
module Engine {

  import opened Wrappers
  import opened JsText
  import opened Catalog
  import opened Ledger
  import opened StatusStore

  /**
   * The fields of a bid form. An absent field is `None`. `amount` is the
   * result of `parseFloat`, in cents, with `None` for NaN.
   */
  datatype BidForm = BidForm(
    name: Option<string>,
    email: Option<string>,
    amount: Option<int>,
    message: Option<string>)

  /** Why a submission was refused; `BidTooLow` carries the amount to beat. */
  datatype Rejection =
    | NotFound
    | InvalidName
    | InvalidEmail
    | InvalidAmount
    | AuctionClosed
    | BidTooLow(minBid: int)

  /** The end of a submission: the row that was appended, or the reason none was. */
  datatype Outcome = Accepted(bid: Bid) | Rejected(reason: Rejection)

  /** The name is present and not blank once trimmed: `!name || !name.trim()` fails. */
  function NameOk(name: Option<string>): (ok: bool)
    ensures ok <==> name.Some? && !IsBlank(name.value)
  {
    if name.None? then false
    else
      TrimEmptyIffBlank(name.value);
      Trim(name.value) != []
  }

  /**
   * The e-mail is present, not blank once trimmed, and contains an `@`. The
   * blank test is implied by the `@` test, since `@` is not white space.
   */
  function EmailOk(email: Option<string>): (ok: bool)
    ensures ok <==> email.Some? && '@' in email.value
  {
    if email.None? then false
    else
      TrimEmptyIffBlank(email.value);
      Trim(email.value) != [] && '@' in email.value
  }

  /**
   * `!numAmount || numAmount <= 0` fails: NaN and zero are falsy, and a
   * negative amount is refused too, so exactly the positive numbers pass.
   */
  function AmountOk(amount: Option<int>): (ok: bool)
    ensures ok <==> amount.Some? && amount.value > 0
  {
    var falsy := amount.None? || amount.value == 0;
    !(falsy || amount.value <= 0)
  }

  /** `getAuctionStatus(slug) === 'closed'`: only a stored `"closed"` row closes an auction. */
  function IsClosed(store: Store, slug: string): (closed: bool)
    ensures closed <==> slug in store && store[slug].status == "closed"
  {
    GetAuctionStatus(store, slug) == "closed"
  }

  /**
   * The amount a new bid must exceed: the best amount on record for the
   * auction, or its starting bid while it has none.
   */
  function MinBid(ledger: seq<Bid>, slug: string, startingBid: int): (r: int)
    ensures (forall b :: b in ledger ==> b.auction != slug) ==> r == startingBid
    ensures (exists b :: b in ledger && b.auction == slug)
      ==> (exists b :: b in ledger && b.auction == slug && b.amount == r)
    ensures forall b :: b in ledger && b.auction == slug ==> b.amount <= r
  {
    match HighestBid(ledger, slug)
    case Some(h) => h.amount
    case None => startingBid
  }

  /** The message column: the trimmed message, or NULL when it is absent or blank. */
  function StoredMessage(message: Option<string>): (r: Option<string>)
    ensures r.Some? <==> message.Some? && Trim(message.value) != []
    ensures r.Some? ==> r.value == Trim(message.value)
  {
    var text := Trim(message.GetOr(""));
    if text == [] then None else Some(text)
  }

  /**
   * The bid pipeline. Six checks run in a fixed order and the first that fails
   * decides the rejection: unknown auction, name, e-mail, amount, closed
   * auction, amount not above the minimum. Only when all pass is a row
   * produced, holding the trimmed name and e-mail and the next id.
   */
  function Submit(catalog: map<string, AuctionDef>, ledger: seq<Bid>, store: Store,
                  slug: string, form: BidForm, now: string): (r: Outcome)
    ensures r == Rejected(NotFound) <==> slug !in catalog
    ensures r == Rejected(InvalidName) <==> slug in catalog && !NameOk(form.name)
    ensures r == Rejected(InvalidEmail)
      <==> slug in catalog && NameOk(form.name) && !EmailOk(form.email)
    ensures r == Rejected(InvalidAmount)
      <==> slug in catalog && NameOk(form.name) && EmailOk(form.email) && !AmountOk(form.amount)
    ensures r == Rejected(AuctionClosed)
      <==> slug in catalog && NameOk(form.name) && EmailOk(form.email) && AmountOk(form.amount)
           && IsClosed(store, slug)
    ensures (r.Rejected? && r.reason.BidTooLow?)
      <==> slug in catalog && NameOk(form.name) && EmailOk(form.email) && AmountOk(form.amount)
           && !IsClosed(store, slug)
           && form.amount.value <= MinBid(ledger, slug, catalog[slug].startingBid)
    ensures r.Rejected? && r.reason.BidTooLow?
      ==> r.reason.minBid == MinBid(ledger, slug, catalog[slug].startingBid)
    ensures r.Accepted?
      <==> slug in catalog && NameOk(form.name) && EmailOk(form.email) && AmountOk(form.amount)
           && !IsClosed(store, slug)
           && form.amount.value > MinBid(ledger, slug, catalog[slug].startingBid)
    ensures r.Accepted? ==> r.bid == Bid(|ledger| + 1, slug, Trim(form.name.value),
                                         Trim(form.email.value), form.amount.value,
                                         StoredMessage(form.message), now)
  {
    if slug !in catalog then Rejected(NotFound)
    else if !NameOk(form.name) then Rejected(InvalidName)
    else if !EmailOk(form.email) then Rejected(InvalidEmail)
    else if !AmountOk(form.amount) then Rejected(InvalidAmount)
    else if IsClosed(store, slug) then Rejected(AuctionClosed)
    else
      var minBid := MinBid(ledger, slug, catalog[slug].startingBid);
      if form.amount.value <= minBid then Rejected(BidTooLow(minBid))
      else Accepted(Bid(|ledger| + 1, slug, Trim(form.name.value), Trim(form.email.value),
                        form.amount.value, StoredMessage(form.message), now))
  }

  /** The ledger after a submission: one more row when accepted, the same rows otherwise. */
  function LedgerAfter(ledger: seq<Bid>, outcome: Outcome): (r: seq<Bid>)
    ensures outcome.Accepted? ==> r == ledger + [outcome.bid]
    ensures outcome.Rejected? ==> r == ledger
  {
    if outcome.Accepted? then ledger + [outcome.bid] else ledger
  }

  /** Every row belongs to an auction of the catalog. */
  predicate KnownAuctions(catalog: map<string, AuctionDef>, ledger: seq<Bid>) {
    forall b :: b in ledger ==> b.auction in catalog
  }

  /** Every row beats its auction's starting bid. */
  predicate AboveStartingBid(catalog: map<string, AuctionDef>, ledger: seq<Bid>) {
    forall b :: b in ledger && b.auction in catalog ==> b.amount > catalog[b.auction].startingBid
  }

  /** What the pipeline keeps true of the ledger. */
  predicate LedgerInvariant(catalog: map<string, AuctionDef>, ledger: seq<Bid>) {
    && Increasing(ledger)
    && IdsSequential(ledger)
    && KnownAuctions(catalog, ledger)
    && AboveStartingBid(catalog, ledger)
  }

  /** An accepted bid beats the starting bid and every earlier bid on its auction. */
  lemma AcceptedBeatsFloorAndRivals(catalog: map<string, AuctionDef>, ledger: seq<Bid>,
                                    store: Store, slug: string, form: BidForm, now: string)
    requires LedgerInvariant(catalog, ledger)
    requires Submit(catalog, ledger, store, slug, form, now).Accepted?
    ensures var b := Submit(catalog, ledger, store, slug, form, now).bid;
      && b.amount > catalog[slug].startingBid
      && forall x :: x in ledger && x.auction == slug ==> x.amount < b.amount
  {
    var minBid := MinBid(ledger, slug, catalog[slug].startingBid);
    if exists x :: x in ledger && x.auction == slug {
      var x :| x in ledger && x.auction == slug && x.amount == minBid;
    }
  }

  /**
   * Appending the next row keeps the invariant when the row belongs to a
   * catalog auction and beats both its starting bid and every earlier row.
   */
  lemma AppendKeepsInvariant(catalog: map<string, AuctionDef>, ledger: seq<Bid>, b: Bid)
    requires LedgerInvariant(catalog, ledger)
    requires b.id == |ledger| + 1 && b.auction in catalog
    requires b.amount > catalog[b.auction].startingBid
    requires forall x :: x in ledger && x.auction == b.auction ==> x.amount < b.amount
    ensures LedgerInvariant(catalog, ledger + [b])
  {
    var l := ledger + [b];
    AppendKeepsIncreasing(ledger, b);
    assert IdsSequential(l) by {
      forall i | 0 <= i < |l| ensures l[i].id == i + 1 {
        if i < |ledger| { assert l[i] == ledger[i]; }
      }
    }
    assert KnownAuctions(catalog, l) && AboveStartingBid(catalog, l) by {
      forall x | x in l ensures x.auction in catalog && x.amount > catalog[x.auction].startingBid {
        if x != b { assert x in ledger; }
      }
    }
  }

  /** Every submission, accepted or not, keeps the ledger invariant. */
  lemma SubmitPreservesInvariant(catalog: map<string, AuctionDef>, ledger: seq<Bid>,
                                 store: Store, slug: string, form: BidForm, now: string)
    requires LedgerInvariant(catalog, ledger)
    ensures LedgerInvariant(catalog, LedgerAfter(ledger, Submit(catalog, ledger, store, slug, form, now)))
  {
    var r := Submit(catalog, ledger, store, slug, form, now);
    if r.Accepted? {
      AcceptedBeatsFloorAndRivals(catalog, ledger, store, slug, form, now);
      AppendKeepsInvariant(catalog, ledger, r.bid);
    }
  }

  /** After an accepted bid, the amount to beat on that auction is exactly that bid. */
  lemma MinBidAfterAccept(catalog: map<string, AuctionDef>, ledger: seq<Bid>,
                          store: Store, slug: string, form: BidForm, now: string)
    requires LedgerInvariant(catalog, ledger)
    requires Submit(catalog, ledger, store, slug, form, now).Accepted?
    ensures var b := Submit(catalog, ledger, store, slug, form, now).bid;
      MinBid(ledger + [b], slug, catalog[slug].startingBid) == b.amount
  {
    var b := Submit(catalog, ledger, store, slug, form, now).bid;
    AcceptedBeatsFloorAndRivals(catalog, ledger, store, slug, form, now);
    MinBidAfterRecord(ledger, b, catalog[slug].startingBid);
  }

  /** A row that beats every earlier row of its auction becomes the amount to beat. */
  lemma MinBidAfterRecord(ledger: seq<Bid>, b: Bid, startingBid: int)
    requires forall x :: x in ledger && x.auction == b.auction ==> x.amount < b.amount
    ensures MinBid(ledger + [b], b.auction, startingBid) == b.amount
  {
    var m := MinBid(ledger + [b], b.auction, startingBid);
    assert b in ledger + [b];
    var x :| x in ledger + [b] && x.auction == b.auction && x.amount == m;
  }

  /**
   * Two submissions of the same amount in a row: once the first is accepted,
   * the second cannot be, and if it gets as far as the amount check it is
   * refused with the first bid as the amount to beat.
   */
  lemma EqualBidAfterAcceptRejected(catalog: map<string, AuctionDef>, ledger: seq<Bid>,
                                    store: Store, slug: string, form1: BidForm, now1: string,
                                    form2: BidForm, now2: string)
    requires LedgerInvariant(catalog, ledger)
    requires Submit(catalog, ledger, store, slug, form1, now1).Accepted?
    requires form2.amount.Some? && form2.amount.value <= form1.amount.value
    ensures var first := Submit(catalog, ledger, store, slug, form1, now1).bid;
      var second := Submit(catalog, ledger + [first], store, slug, form2, now2);
      && !second.Accepted?
      && (NameOk(form2.name) && EmailOk(form2.email) && AmountOk(form2.amount)
          ==> second == Rejected(BidTooLow(first.amount)))
  {
    MinBidAfterAccept(catalog, ledger, store, slug, form1, now1);
  }

  /** What the auction pages show for one auction. */
  datatype AuctionView = AuctionView(
    auction: AuctionDef,
    currentBid: Option<int>,
    highestBidder: Option<string>,
    bidCount: nat,
    status: string)

  /**
   * `enrichAuction`: the definition joined with its winning bid, bid count and
   * status. The current bid and bidder are null exactly when there are no
   * bids; otherwise they come from one bid of greatest amount.
   */
  function EnrichAuction(def: AuctionDef, ledger: seq<Bid>, store: Store): (v: AuctionView)
    ensures v.auction == def
    ensures v.bidCount == |BidsFor(ledger, def.slug)|
    ensures v.currentBid.None? <==> v.bidCount == 0
    ensures v.highestBidder.None? <==> v.bidCount == 0
    ensures v.currentBid.Some? && v.highestBidder.Some?
      ==> exists b :: b in ledger && b.auction == def.slug
                      && b.amount == v.currentBid.value && b.name == v.highestBidder.value
    ensures v.currentBid.Some?
      ==> forall b :: b in ledger && b.auction == def.slug ==> b.amount <= v.currentBid.value
    ensures v.status == GetAuctionStatus(store, def.slug)
  {
    var highest := HighestBid(ledger, def.slug);
    var count := BidCount(ledger, def.slug);
    AuctionView(
      def,
      if highest.Some? then Some(highest.value.amount) else None,
      if highest.Some? then Some(highest.value.name) else None,
      count,
      GetAuctionStatus(store, def.slug))
  }

  /** Under the invariant the view reports the most recently accepted bid. */
  lemma ViewShowsLatestBid(def: AuctionDef, ledger: seq<Bid>, store: Store)
    requires Increasing(ledger)
    requires BidsFor(ledger, def.slug) != []
    ensures EnrichAuction(def, ledger, store).currentBid == Some(Latest(BidsFor(ledger, def.slug)).amount)
    ensures EnrichAuction(def, ledger, store).highestBidder == Some(Latest(BidsFor(ledger, def.slug)).name)
  {
    HighestIsLatest(ledger, def.slug);
    ViewReportsHighest(def, ledger, store, Latest(BidsFor(ledger, def.slug)));
  }

  /** The view's current bid and bidder are those of the winning row. */
  lemma ViewReportsHighest(def: AuctionDef, ledger: seq<Bid>, store: Store, winner: Bid)
    requires HighestBid(ledger, def.slug) == Some(winner)
    ensures EnrichAuction(def, ledger, store).currentBid == Some(winner.amount)
    ensures EnrichAuction(def, ledger, store).highestBidder == Some(winner.name)
  {
  }

  /** The view's current bid heads the leaderboard. */
  lemma ViewLatest(def: AuctionDef, ledger: seq<Bid>, store: Store)
    requires Increasing(ledger)
    ensures var board := AllBids(ledger, def.slug);
      board != [] ==> EnrichAuction(def, ledger, store).currentBid == Some(board[0].amount)
  {
    AllBidsNewestFirst(ledger, def.slug);
    if BidsFor(ledger, def.slug) != [] {
      ViewShowsLatestBid(def, ledger, store);
    }
  }

  /**
   * The server's state: the catalog built at start-up, the `bids` table and
   * the `auction_status` table.
   */
  class AuctionHouse {
    const catalog: map<string, AuctionDef>
    var bids: seq<Bid>
    var statuses: Store

    ghost predicate Valid()
      reads this
    {
      && (forall k :: k in catalog ==> catalog[k].slug == k)
      && LedgerInvariant(catalog, bids)
    }

    /** Start-up over an empty database: index the catalog by slug. */
    constructor (auctions: seq<AuctionDef>)
      ensures Valid()
      ensures catalog == IndexBySlug(auctions)
      ensures bids == [] && statuses == map[]
    {
      var index := BuildIndex(auctions);
      forall k | k in index ensures index[k].slug == k {
        IndexEntryIsDefinition(auctions, k);
      }
      catalog := index;
      bids := [];
      statuses := map[];
    }

    /** The auction page's data: the view and the leaderboard, or none for an unknown slug. */
    function View(slug: string): (r: Option<(AuctionView, seq<Bid>)>)
      reads this
      requires Valid()
      ensures r.None? <==> slug !in catalog
      ensures r.Some? ==> r.value.0.auction.slug == slug
      ensures r.Some? ==> r.value.0.bidCount == |r.value.1|
      ensures r.Some? ==> SortedDesc(r.value.1)
      ensures r.Some? && r.value.1 != [] ==> r.value.0.currentBid == Some(r.value.1[0].amount)
      ensures r.Some? ==> r.value.0 == EnrichAuction(catalog[slug], bids, statuses)
      ensures r.Some? ==> r.value.1 == AllBids(bids, slug)
    {
      match Lookup(catalog, slug)
      case None => None
      case Some(auction) =>
        var v := EnrichAuction(auction, bids, statuses);
        var board := AllBids(bids, auction.slug);
        AllBidsNewestFirst(bids, slug);
        ViewLatest(auction, bids, statuses);
        Some((v, board))
    }

    /** POST a bid: validate against the current tables, append the row if it passes. */
    method SubmitBid(slug: string, form: BidForm, now: string) returns (outcome: Outcome)
      requires Valid()
      modifies this
      ensures Valid()
      ensures outcome == Submit(catalog, old(bids), old(statuses), slug, form, now)
      ensures outcome.Accepted? ==> bids == old(bids) + [outcome.bid]
      ensures outcome.Rejected? ==> bids == old(bids)
      ensures statuses == old(statuses)
    {
      outcome := Submit(catalog, bids, statuses, slug, form, now);
      SubmitPreservesInvariant(catalog, bids, statuses, slug, form, now);
      bids := LedgerAfter(bids, outcome);
    }

    /** The admin close action: upsert a closed row stamped `now`; the ledger is untouched. */
    method CloseAuction(slug: string, now: string)
      requires Valid()
      modifies this
      ensures Valid()
      ensures statuses == Close(old(statuses), slug, now)
      ensures bids == old(bids)
    {
      statuses := Close(statuses, slug, now);
    }

    /** The admin reopen action: upsert an open row with no closing time; the ledger is untouched. */
    method ReopenAuction(slug: string)
      requires Valid()
      modifies this
      ensures Valid()
      ensures statuses == Reopen(old(statuses), slug)
      ensures bids == old(bids)
    {
      statuses := Reopen(statuses, slug);
    }
  }
}
