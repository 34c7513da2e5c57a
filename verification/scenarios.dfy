/**
 * A widget walk-through that drives `AuctionHouse` and checks what it
 * answers and what its page shows. Amounts are cents, so 10.00 is 1000.
 */
module Scenarios {

  import opened Wrappers
  import opened JsText
  import opened Catalog
  import opened Ledger
  import opened StatusStore
  import opened Engine
  import AuctionUtils

  lemma AnnTrims()
    ensures Trim("Ann") == "Ann" && Trim("a@x.com") == "a@x.com"
    ensures NameOk(Some("Ann")) && EmailOk(Some("a@x.com"))
  {
    assert !IsJsSpace("Ann"[0]) && !IsJsSpace("Ann"[2]);
    assert TextStart("Ann", 0) == 0 && TextEnd("Ann", 0, 3) == 3;
    assert !IsJsSpace("a@x.com"[0]) && !IsJsSpace("a@x.com"[6]);
    assert TextStart("a@x.com", 0) == 0 && TextEnd("a@x.com", 0, 7) == 7;
    assert "a@x.com"[1] == '@';
    TrimEmptyIffBlank("Ann");
    TrimEmptyIffBlank("a@x.com");
  }

  lemma BoAndCyWellFormed()
    ensures NameOk(Some("Bo")) && EmailOk(Some("b@x.com"))
    ensures NameOk(Some("Cy")) && EmailOk(Some("c@x.com"))
  {
    assert !IsJsSpace("Bo"[0]) && !IsJsSpace("Cy"[0]);
    assert !IsJsSpace("b@x.com"[0]) && "b@x.com"[1] == '@';
    assert !IsJsSpace("c@x.com"[0]) && "c@x.com"[1] == '@';
    TrimEmptyIffBlank("Bo");
    TrimEmptyIffBlank("Cy");
    TrimEmptyIffBlank("b@x.com");
    TrimEmptyIffBlank("c@x.com");
  }

  function Widget(): AuctionDef {
    AuctionDef("widget", "Widget", "A widget", 1000, "widget.png", "misc")
  }

  /** Start-up with the widget as the whole catalog. */
  method WidgetHouse() returns (house: AuctionHouse)
    ensures house.Valid() && house.catalog == map["widget" := Widget()]
    ensures house.bids == [] && !IsClosed(house.statuses, "widget")
  {
    house := new AuctionHouse([Widget()]);
    assert [Widget()][..0] == [];
  }

  /** On the fresh widget, an opening bid of exactly the starting bid is too low. */
  lemma OpeningAtStartTooLow(store: Store, name: string, email: string)
    requires !IsClosed(store, "widget")
    requires NameOk(Some(name)) && EmailOk(Some(email))
    ensures Submit(map["widget" := Widget()], [], store, "widget",
                   BidForm(Some(name), Some(email), Some(1000), Some("")), "t1")
         == Rejected(BidTooLow(1000))
  {
    assert MinBid([], "widget", 1000) == 1000;
  }

  /** On the fresh widget, an opening bid above the starting bid becomes row 1. */
  lemma OpeningAboveStartAccepted(store: Store, name: string, email: string)
    requires !IsClosed(store, "widget")
    requires NameOk(Some(name)) && EmailOk(Some(email))
    ensures Submit(map["widget" := Widget()], [], store, "widget",
                   BidForm(Some(name), Some(email), Some(1050), Some("hi")), "t2")
         == Accepted(Bid(1, "widget", Trim(name), Trim(email), 1050, StoredMessage(Some("hi")), "t2"))
  {
    assert MinBid([], "widget", 1000) == 1000;
  }

  /** An opening bid equal to the starting bid does not exceed it. */
  method OpeningBidMustExceedStart(house: AuctionHouse)
    requires house.Valid() && house.catalog == map["widget" := Widget()]
    requires house.bids == [] && !IsClosed(house.statuses, "widget")
    modifies house
  {
    AnnTrims();
    OpeningAtStartTooLow(house.statuses, "Ann", "a@x.com");
    var r := house.SubmitBid("widget", BidForm(Some("Ann"), Some("a@x.com"), Some(1000), Some("")), "t1");
    assert r == Rejected(BidTooLow(1000));
  }

  /** An opening bid above the starting bid is taken and becomes the only row. */
  method OpeningBidAccepted(house: AuctionHouse)
    requires house.Valid() && house.catalog == map["widget" := Widget()]
    requires house.bids == [] && !IsClosed(house.statuses, "widget")
    modifies house
    ensures house.Valid() && house.catalog == map["widget" := Widget()]
    ensures house.bids == [Bid(1, "widget", "Ann", "a@x.com", 1050, StoredMessage(Some("hi")), "t2")]
    ensures house.statuses == old(house.statuses) && !IsClosed(house.statuses, "widget")
  {
    AnnTrims();
    OpeningAboveStartAccepted(house.statuses, "Ann", "a@x.com");
    var r := house.SubmitBid("widget", BidForm(Some("Ann"), Some("a@x.com"), Some(1050), Some("hi")), "t2");
  }

  /** The page after the opening bid shows it: 10.50 by Ann, one bid. */
  method OpeningBidShown(house: AuctionHouse)
    requires house.Valid() && house.catalog == map["widget" := Widget()]
    requires house.bids == [Bid(1, "widget", "Ann", "a@x.com", 1050, StoredMessage(Some("hi")), "t2")]
  {
    var page := house.View("widget");
    SingleBidView(house.bids[0], house.statuses);
    assert page.Some? && page.value.0.currentBid == Some(1050) && page.value.0.bidCount == 1;
    assert page.value.0.highestBidder == Some("Ann");
  }

  /** With a single widget bid on record, the widget's view shows that bid. */
  lemma SingleBidView(b: Bid, store: Store)
    requires b.auction == "widget"
    ensures EnrichAuction(Widget(), [b], store).bidCount == 1
    ensures EnrichAuction(Widget(), [b], store).currentBid == Some(b.amount)
    ensures EnrichAuction(Widget(), [b], store).highestBidder == Some(b.name)
  {
    assert BidsFor([b], "widget") == [b] by {
      assert [b][..0] == [];
    }
  }

  /** With one widget bid of 10.50 on record, 10.50 is the amount to beat. */
  lemma SingleBidIsMinimum(ledger: seq<Bid>)
    requires |ledger| == 1 && ledger[0].auction == "widget" && ledger[0].amount == 1050
    ensures MinBid(ledger, "widget", 1000) == 1050
  {
    assert ledger[0] in ledger;
  }

  /** Matching the current bid is too low, and the minimum reported is that bid. */
  method MatchingBidRefused(house: AuctionHouse)
    requires house.Valid() && house.catalog == map["widget" := Widget()]
    requires |house.bids| == 1 && house.bids[0].auction == "widget" && house.bids[0].amount == 1050
    requires !IsClosed(house.statuses, "widget")
    modifies house
  {
    var form := BidForm(Some("Bo"), Some("b@x.com"), Some(1050), Some(""));
    var before := house.bids;
    assert Submit(house.catalog, before, house.statuses, "widget", form, "t3") == Rejected(BidTooLow(1050)) by {
      BoAndCyWellFormed();
      SingleBidIsMinimum(before);
      assert house.catalog["widget"].startingBid == 1000;
    }
    var r := house.SubmitBid("widget", form, "t3");
    assert r == Rejected(BidTooLow(1050));
    assert house.bids == before;
  }

  /** A closed auction refuses any bid and its page shows it closed. */
  method ClosedRefusesBids(house: AuctionHouse)
    requires house.Valid() && house.catalog == map["widget" := Widget()]
    modifies house
  {
    house.CloseAuction("widget", "t4");
    assert IsClosed(house.statuses, "widget");
    var form := BidForm(Some("Cy"), Some("c@x.com"), Some(2000), Some(""));
    assert Submit(house.catalog, house.bids, house.statuses, "widget", form, "t5") == Rejected(AuctionClosed) by {
      BoAndCyWellFormed();
    }
    var r := house.SubmitBid("widget", form, "t5");
    assert r == Rejected(AuctionClosed);
    var page := house.View("widget");
    assert page.Some? && page.value.0.status == "closed";
  }

  /** A slug outside the catalog takes no bid and has no page. */
  method UnknownSlugNotFound(house: AuctionHouse)
    requires house.Valid() && house.catalog == map["widget" := Widget()]
    modifies house
  {
    assert "unknown-slug" !in house.catalog;
    var r := house.SubmitBid("unknown-slug", BidForm(Some("Cy"), Some("c@x.com"), Some(2000), None), "t6");
    assert r == Rejected(NotFound);
    var page := house.View("unknown-slug");
    assert page.None?;
  }

  /**
   * On an auction page the badge reads "SOLD" exactly when the auction
   * refuses an otherwise well-formed bid because it is closed.
   */
  lemma SoldExactlyWhenClosedToBids(catalog: map<string, AuctionDef>, ledger: seq<Bid>,
                                    store: Store, slug: string, form: BidForm, now: string)
    requires slug in catalog && catalog[slug].slug == slug
    requires NameOk(form.name) && EmailOk(form.email) && AmountOk(form.amount)
    ensures AuctionUtils.StatusLabel(EnrichAuction(catalog[slug], ledger, store).status) == "SOLD"
        <==> Submit(catalog, ledger, store, slug, form, now) == Rejected(AuctionClosed)
  {
  }
}
