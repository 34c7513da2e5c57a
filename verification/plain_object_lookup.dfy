/**
 * The catalog lookup as the server writes it. `auctionsBySlug` is a plain
 * JavaScript object, so `auctionsBySlug[slug]` also finds the members every
 * object inherits from `Object.prototype`. Such a member is truthy, so it
 * passes the not-found check, and it has no `startingBid`: on an auction with
 * no bids the comparison `numAmount <= undefined` is false, and any positive
 * bid is stored under a slug the catalog does not have.
 */
module PlainObjectLookup {

  import opened Wrappers
  import opened JsText
  import opened Catalog
  import opened Ledger
  import opened StatusStore
  import opened Engine

  /** Member names every plain JavaScript object inherits from `Object.prototype`. */
  const InheritedNames: set<string> := {
    "constructor", "__proto__", "hasOwnProperty", "isPrototypeOf",
    "propertyIsEnumerable", "toLocaleString", "toString", "valueOf",
    "__defineGetter__", "__defineSetter__", "__lookupGetter__", "__lookupSetter__"
  }

  /** A successful property read: an own entry, or an inherited member with no `startingBid`. */
  datatype Found = Own(def: AuctionDef) | Inherited

  /** `auctionsBySlug[slug]` on a plain object: own entries first, then inherited members. */
  function LookupAsWritten(catalog: map<string, AuctionDef>, slug: string): (r: Option<Found>)
    ensures r.None? <==> slug !in catalog && slug !in InheritedNames
    ensures slug in catalog ==> r == Some(Own(catalog[slug]))
    ensures slug !in catalog && slug in InheritedNames ==> r == Some(Inherited)
  {
    if slug in catalog then Some(Own(catalog[slug]))
    else if slug in InheritedNames then Some(Inherited)
    else None
  }

  /**
   * The page routes read `auctionsBySlug[slug]` the same way: as written, an
   * inherited member name is found and its page is built, where the own-key
   * lookup answers not found.
   */
  lemma InheritedNameHasPage(catalog: map<string, AuctionDef>, slug: string)
    requires slug !in catalog && slug in InheritedNames
    ensures LookupAsWritten(catalog, slug) == Some(Inherited)
    ensures Lookup(catalog, slug).None?
  {
  }

  /**
   * The bid pipeline exactly as written: the same six checks, but the lookup
   * of `LookupAsWritten`, and a minimum that is undefined for an inherited
   * member with no bids, against which no amount compares as too low.
   */
  function SubmitAsWritten(catalog: map<string, AuctionDef>, ledger: seq<Bid>, store: Store,
                           slug: string, form: BidForm, now: string): (r: Outcome)
    ensures slug in catalog || slug !in InheritedNames
      ==> r == Submit(catalog, ledger, store, slug, form, now)
  {
    match LookupAsWritten(catalog, slug)
    case None => Rejected(NotFound)
    case Some(found) =>
      if !NameOk(form.name) then Rejected(InvalidName)
      else if !EmailOk(form.email) then Rejected(InvalidEmail)
      else if !AmountOk(form.amount) then Rejected(InvalidAmount)
      else if IsClosed(store, slug) then Rejected(AuctionClosed)
      else
        var minBid: Option<int> :=
          match HighestBid(ledger, slug)
          case Some(h) => Some(h.amount)
          case None => if found.Own? then Some(found.def.startingBid) else None;
        if minBid.Some? && form.amount.value <= minBid.value then Rejected(BidTooLow(minBid.value))
        else Accepted(Bid(|ledger| + 1, slug, Trim(form.name.value), Trim(form.email.value),
                          form.amount.value, StoredMessage(form.message), now))
  }

  /**
   * As written, an inherited member name that the catalog does not define
   * takes any well-formed positive first bid, and the row it appends belongs
   * to no auction of the catalog; the corrected pipeline answers not found.
   */
  lemma InheritedNameTakesFirstBid(catalog: map<string, AuctionDef>, ledger: seq<Bid>, store: Store,
                                   slug: string, form: BidForm, now: string)
    requires slug in InheritedNames && slug !in catalog
    requires forall b :: b in ledger ==> b.auction != slug
    requires !IsClosed(store, slug)
    requires NameOk(form.name) && EmailOk(form.email) && AmountOk(form.amount)
    ensures SubmitAsWritten(catalog, ledger, store, slug, form, now).Accepted?
    ensures SubmitAsWritten(catalog, ledger, store, slug, form, now).bid.auction == slug
    ensures !KnownAuctions(catalog, LedgerAfter(ledger, SubmitAsWritten(catalog, ledger, store, slug, form, now)))
    ensures Submit(catalog, ledger, store, slug, form, now) == Rejected(NotFound)
  {
    var r := SubmitAsWritten(catalog, ledger, store, slug, form, now);
    assert r.bid in LedgerAfter(ledger, r);
  }

  /** The form of the concrete case passes the name, e-mail and amount checks. */
  lemma SampleFormWellFormed(form: BidForm)
    requires form == BidForm(Some("Ann"), Some("a@x.com"), Some(1), None)
    ensures NameOk(form.name) && EmailOk(form.email) && AmountOk(form.amount)
  {
    assert !IsJsSpace("Ann"[0]);
    TrimEmptyIffBlank("Ann");
    assert !IsJsSpace("a@x.com"[0]);
    TrimEmptyIffBlank("a@x.com");
    assert "a@x.com"[1] == '@';
  }

  /**
   * The concrete case: a first bid of one cent posted to `/auction/constructor/bid`
   * to a catalog that does not define that slug is accepted as written, and
   * the row it appends belongs to no auction.
   */
  lemma ConstructorSlugAccepted(catalog: map<string, AuctionDef>, form: BidForm)
    requires "constructor" !in catalog
    requires form == BidForm(Some("Ann"), Some("a@x.com"), Some(1), None)
    ensures SubmitAsWritten(catalog, [], map[], "constructor", form, "t").Accepted?
    ensures !KnownAuctions(catalog, LedgerAfter([], SubmitAsWritten(catalog, [], map[], "constructor", form, "t")))
  {
    SampleFormWellFormed(form);
    assert "constructor" in InheritedNames;
    InheritedNameTakesFirstBid(catalog, [], map[], "constructor", form, "t");
  }
}
