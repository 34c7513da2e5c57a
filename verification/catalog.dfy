/**
 * The auction catalog: the definitions read once at start-up, and the
 * slug-keyed lookup table the start-up loop fills from them.
 */
module Catalog {

  import opened Wrappers

  /** One auction item as the seed file defines it; `startingBid` is in cents. */
  datatype AuctionDef = AuctionDef(
    slug: string,
    title: string,
    description: string,
    startingBid: int,
    image: string,
    category: string)

  /** `auctionsBySlug` after the start-up loop has run over `defs`. */
  function IndexBySlug(defs: seq<AuctionDef>): (m: map<string, AuctionDef>)
    ensures forall k :: k in m ==> m[k].slug == k
  {
    if defs == [] then map[]
    else IndexBySlug(defs[..|defs| - 1])[defs[|defs| - 1].slug := defs[|defs| - 1]]
  }

  /** No definition after position `i` has the slug of `defs[i]`. */
  predicate LastWithItsSlug(defs: seq<AuctionDef>, i: nat)
    requires i < |defs|
  {
    forall j :: i < j < |defs| ==> defs[j].slug != defs[i].slug
  }

  /** A slug has an entry exactly when some definition carries it. */
  lemma {:induction false} IndexHasSlug(defs: seq<AuctionDef>, k: string)
    ensures k in IndexBySlug(defs) <==> exists i :: 0 <= i < |defs| && defs[i].slug == k
  {
    if defs != [] {
      var n := |defs| - 1;
      var prefix := defs[..n];
      IndexHasSlug(prefix, k);
      if k != defs[n].slug && k in IndexBySlug(defs) {
        var i :| 0 <= i < |prefix| && prefix[i].slug == k;
        assert defs[i].slug == k;
      }
      if k != defs[n].slug && k !in IndexBySlug(defs) {
        forall i | 0 <= i < |defs| ensures defs[i].slug != k {
          if i < n { assert defs[i] == prefix[i]; }
        }
      }
    }
  }

  /** Every entry is one of the definitions, filed under its own slug. */
  lemma {:induction false} IndexEntryIsDefinition(defs: seq<AuctionDef>, k: string)
    requires k in IndexBySlug(defs)
    ensures IndexBySlug(defs)[k] in defs && IndexBySlug(defs)[k].slug == k
  {
    var n := |defs| - 1;
    var prefix := defs[..n];
    if k != defs[n].slug {
      IndexEntryIsDefinition(prefix, k);
      assert IndexBySlug(defs)[k] == IndexBySlug(prefix)[k];
      assert forall d :: d in prefix ==> d in defs;
    }
  }

  /** When several definitions share a slug, the last one wins. */
  lemma {:induction false} IndexLastWins(defs: seq<AuctionDef>, i: nat)
    requires i < |defs| && LastWithItsSlug(defs, i)
    ensures defs[i].slug in IndexBySlug(defs) && IndexBySlug(defs)[defs[i].slug] == defs[i]
  {
    var n := |defs| - 1;
    var prefix := defs[..n];
    if i < n {
      assert defs[n].slug != defs[i].slug;
      assert prefix[i] == defs[i];
      assert LastWithItsSlug(prefix, i) by {
        forall j | i < j < |prefix| ensures prefix[j].slug != prefix[i].slug {
          assert prefix[j] == defs[j];
        }
      }
      IndexLastWins(prefix, i);
    }
  }

  /** No two definitions share a slug. */
  predicate DistinctSlugs(defs: seq<AuctionDef>) {
    forall i, j :: 0 <= i < j < |defs| ==> defs[i].slug != defs[j].slug
  }

  /** With distinct slugs every definition is reachable from its own slug. */
  lemma IndexFindsEveryDistinct(defs: seq<AuctionDef>, i: nat)
    requires DistinctSlugs(defs) && i < |defs|
    ensures defs[i].slug in IndexBySlug(defs) && IndexBySlug(defs)[defs[i].slug] == defs[i]
  {
    IndexLastWins(defs, i);
  }

  /** The start-up `forEach` loop: insert each definition under its slug, in order. */
  method BuildIndex(defs: seq<AuctionDef>) returns (m: map<string, AuctionDef>)
    ensures m == IndexBySlug(defs)
  {
    m := map[];
    for i := 0 to |defs|
      invariant m == IndexBySlug(defs[..i])
    {
      assert defs[..i + 1][..i] == defs[..i];
      m := m[defs[i].slug := defs[i]];
    }
    assert defs[..|defs|] == defs;
  }

  /** `auctionsBySlug[slug]`, reading only the table's own entries. */
  function Lookup(catalog: map<string, AuctionDef>, slug: string): (r: Option<AuctionDef>)
    ensures r.Some? <==> slug in catalog
    ensures r.Some? ==> r.value == catalog[slug]
  {
    if slug in catalog then Some(catalog[slug]) else None
  }

}
