/**
 * The per-auction status store: the `auction_status` table, keyed by slug.
 * A missing row means the auction is open; the admin actions upsert rows.
 */
module StatusStore {

  import opened Wrappers

  /** One row of `auction_status`: the status text and the closing time, NULL when open. */
  datatype StatusRow = StatusRow(status: string, closedAt: Option<string>)

  type Store = map<string, StatusRow>

  /** `getAuctionStatus`: the stored status text, `"open"` when there is no row. */
  function GetAuctionStatus(store: Store, slug: string): (r: string)
    ensures slug !in store ==> r == "open"
    ensures slug in store ==> r == store[slug].status
  {
    if slug in store then store[slug].status else "open"
  }

  /** The upsert that closes an auction at time `at`; it touches no other slug. */
  function Close(store: Store, slug: string, at: string): (r: Store)
    ensures GetAuctionStatus(r, slug) == "closed"
    ensures slug in r && r[slug].closedAt == Some(at)
    ensures r.Keys == store.Keys + {slug}
    ensures forall k :: k in store && k != slug ==> r[k] == store[k]
  {
    store[slug := StatusRow("closed", Some(at))]
  }

  /** The upsert that reopens an auction: status open and no closing time left behind. */
  function Reopen(store: Store, slug: string): (r: Store)
    ensures GetAuctionStatus(r, slug) == "open"
    ensures slug in r && r[slug].closedAt == None
    ensures r.Keys == store.Keys + {slug}
    ensures forall k :: k in store && k != slug ==> r[k] == store[k]
  {
    store[slug := StatusRow("open", None)]
  }

  /** Closing twice at the same time is closing once; closing again later only moves the time. */
  lemma CloseIdempotent(store: Store, slug: string, at: string, later: string)
    ensures Close(Close(store, slug, at), slug, at) == Close(store, slug, at)
    ensures GetAuctionStatus(Close(Close(store, slug, at), slug, later), slug)
         == GetAuctionStatus(Close(store, slug, at), slug)
  {
  }

  /** Reopening twice is reopening once. */
  lemma ReopenIdempotent(store: Store, slug: string)
    ensures Reopen(Reopen(store, slug), slug) == Reopen(store, slug)
  {
  }

  /** Reopening after a close leaves the same row as reopening directly: nothing stale remains. */
  lemma ReopenForgetsClose(store: Store, slug: string, at: string)
    ensures Reopen(Close(store, slug, at), slug) == Reopen(store, slug)
  {
  }
}
