/**
 * The bid ledger: the `bids` table, whose rows are only ever appended, and the
 * three queries the server runs against it (highest bid, all bids by amount,
 * bid count).
 */
module Ledger {

  import opened Wrappers

  /**
   * One row of the `bids` table. `amount` is in cents; `message` is NULL when
   * the bidder left none; `createdAt` is the insertion timestamp, opaque here.
   */
  datatype Bid = Bid(
    id: nat,
    auction: string,
    name: string,
    email: string,
    amount: int,
    message: Option<string>,
    createdAt: string)

  /** `WHERE auction_slug = ?`: the rows for one auction, in insertion order. */
  function BidsFor(ledger: seq<Bid>, slug: string): (r: seq<Bid>)
    ensures |r| <= |ledger|
    ensures forall b :: b in r <==> b in ledger && b.auction == slug
  {
    if ledger == [] then []
    else
      var last := ledger[|ledger| - 1];
      var prefix := ledger[..|ledger| - 1];
      assert forall b :: b in ledger <==> b in prefix || b == last;
      BidsFor(prefix, slug) + (if last.auction == slug then [last] else [])
  }

  /** Each row of the auction is selected as often as it occurs in the ledger, and no other row. */
  lemma {:induction false} BidsForKeepsMultiplicity(ledger: seq<Bid>, slug: string, b: Bid)
    ensures multiset(BidsFor(ledger, slug))[b] == (if b.auction == slug then multiset(ledger)[b] else 0)
  {
    if ledger != [] {
      var n := |ledger| - 1;
      var prefix := ledger[..n];
      assert ledger == prefix + [ledger[n]];
      BidsForKeepsMultiplicity(prefix, slug, b);
    }
  }

  /** Appending a row extends the rows of its own auction and no others. */
  lemma BidsForAppend(ledger: seq<Bid>, b: Bid, slug: string)
    ensures BidsFor(ledger + [b], slug)
         == BidsFor(ledger, slug) + (if b.auction == slug then [b] else [])
  {
    assert (ledger + [b])[..|ledger|] == ledger;
  }

  /** Position of the earliest row of greatest amount in a non-empty list. */
  function HighestIndex(bids: seq<Bid>): (k: nat)
    requires bids != []
    ensures k < |bids|
    ensures forall j :: 0 <= j < |bids| ==> bids[j].amount <= bids[k].amount
    ensures forall j :: 0 <= j < k ==> bids[j].amount < bids[k].amount
  {
    if |bids| == 1 then 0
    else
      var rest := bids[1..];
      var k := 1 + HighestIndex(rest);
      assert forall j :: 1 <= j < |bids| ==> bids[j] == rest[j - 1];
      if bids[0].amount >= bids[k].amount then 0 else k
  }

  /**
   * The row the scan `ORDER BY amount DESC LIMIT 1` returns: a row of greatest
   * amount, the earliest one among equals; none for no rows.
   */
  function HighestOf(bids: seq<Bid>): (r: Option<Bid>)
    ensures r.None? <==> bids == []
    ensures r.Some? ==> r.value in bids && forall b :: b in bids ==> b.amount <= r.value.amount
  {
    if bids == [] then None else Some(bids[HighestIndex(bids)])
  }

  /** `getHighestBid`: the winning row of one auction, if it has any. */
  function HighestBid(ledger: seq<Bid>, slug: string): (r: Option<Bid>)
    ensures r.None? <==> forall b :: b in ledger ==> b.auction != slug
    ensures r.Some? ==> r.value in ledger && r.value.auction == slug
    ensures r.Some? ==> forall b :: b in ledger && b.auction == slug ==> b.amount <= r.value.amount
  {
    var rows := BidsFor(ledger, slug);
    assert rows == [] <==> forall b :: b in ledger ==> b.auction != slug by {
      if rows != [] { assert rows[0] in rows; }
    }
    HighestOf(rows)
  }

  /** `getBidCount`: the number of rows of one auction. */
  function BidCount(ledger: seq<Bid>, slug: string): (n: nat)
    ensures n <= |ledger|
    ensures n == |BidsFor(ledger, slug)|
    ensures n == 0 <==> forall b :: b in ledger ==> b.auction != slug
  {
    var rows := BidsFor(ledger, slug);
    assert rows != [] ==> rows[0] in rows;
    |rows|
  }

  /** Amounts never increase from left to right. */
  predicate SortedDesc(bids: seq<Bid>) {
    forall i, j :: 0 <= i < j < |bids| ==> bids[i].amount >= bids[j].amount
  }

  /** Put `x` into a descending list, ahead of the rows with an equal amount. */
  function InsertDesc(x: Bid, sorted: seq<Bid>): (r: seq<Bid>)
    requires SortedDesc(sorted)
    ensures SortedDesc(r)
    ensures |r| == |sorted| + 1
    ensures forall b :: b in r <==> b == x || b in sorted
  {
    if sorted == [] || x.amount >= sorted[0].amount then [x] + sorted
    else
      var tail := InsertDesc(x, sorted[1..]);
      var r := [sorted[0]] + tail;
      assert forall b :: b in sorted <==> b == sorted[0] || b in sorted[1..];
      assert SortedDesc(r) by {
        forall i, j | 0 <= i < j < |r| ensures r[i].amount >= r[j].amount {
          if i == 0 {
            assert r[j] in tail;
          } else {
            assert r[i] == tail[i - 1] && r[j] == tail[j - 1];
          }
        }
      }
      r
  }

  /** Inserting adds exactly one occurrence of `x` and loses nothing. */
  lemma {:induction false} InsertDescPermutes(x: Bid, sorted: seq<Bid>)
    requires SortedDesc(sorted)
    ensures multiset(InsertDesc(x, sorted)) == multiset(sorted) + multiset{x}
  {
    if sorted != [] && x.amount < sorted[0].amount {
      InsertDescPermutes(x, sorted[1..]);
      assert sorted == [sorted[0]] + sorted[1..];
    }
  }

  /** Insertion sort by descending amount. */
  function SortDesc(bids: seq<Bid>): (r: seq<Bid>)
    ensures SortedDesc(r)
    ensures multiset(r) == multiset(bids)
  {
    if bids == [] then []
    else
      var rest := SortDesc(bids[1..]);
      InsertDescPermutes(bids[0], rest);
      assert bids == [bids[0]] + bids[1..];
      InsertDesc(bids[0], rest)
  }

  /** `getAllBids`: the rows of one auction, highest amount first. */
  function AllBids(ledger: seq<Bid>, slug: string): (r: seq<Bid>)
    ensures SortedDesc(r)
    ensures multiset(r) == multiset(BidsFor(ledger, slug))
  {
    SortDesc(BidsFor(ledger, slug))
  }

  /**
   * The ledger's central invariant: for each auction, amounts strictly
   * increase in insertion order.
   */
  predicate Increasing(ledger: seq<Bid>) {
    forall i, j :: 0 <= i < j < |ledger| && ledger[i].auction == ledger[j].auction
      ==> ledger[i].amount < ledger[j].amount
  }

  /** Amounts strictly increase from left to right. */
  predicate StrictlyAscending(bids: seq<Bid>) {
    forall i, j :: 0 <= i < j < |bids| ==> bids[i].amount < bids[j].amount
  }

  /** Appending a row that beats every row of its auction keeps the invariant. */
  lemma AppendKeepsIncreasing(ledger: seq<Bid>, b: Bid)
    requires Increasing(ledger)
    requires forall x :: x in ledger && x.auction == b.auction ==> x.amount < b.amount
    ensures Increasing(ledger + [b])
  {
    var l := ledger + [b];
    forall i, j | 0 <= i < j < |l| && l[i].auction == l[j].auction
      ensures l[i].amount < l[j].amount
    {
      if j == |ledger| { assert l[i] in ledger; }
    }
  }

  /** Row `i` carries id `i + 1`: autoincrement on a table nothing is deleted from. */
  predicate IdsSequential(ledger: seq<Bid>) {
    forall i :: 0 <= i < |ledger| ==> ledger[i].id == i + 1
  }

  /** Ids strictly increase from left to right. */
  predicate IdsAscending(rows: seq<Bid>) {
    forall i, j :: 0 <= i < j < |rows| ==> rows[i].id < rows[j].id
  }

  /**
   * The rows of one auction come out in insertion order: with sequential
   * ids, their ids strictly increase.
   */
  lemma {:induction false} BidsForInInsertionOrder(ledger: seq<Bid>, slug: string)
    requires IdsSequential(ledger)
    ensures IdsAscending(BidsFor(ledger, slug))
  {
    if ledger != [] {
      var n := |ledger| - 1;
      var prefix := ledger[..n];
      var last := ledger[n];
      assert ledger == prefix + [last];
      assert IdsSequential(prefix) by {
        forall i | 0 <= i < |prefix| ensures prefix[i].id == i + 1 {
          assert prefix[i] == ledger[i];
        }
      }
      BidsForInInsertionOrder(prefix, slug);
      BidsForAppend(prefix, last, slug);
      if last.auction == slug {
        var rows := BidsFor(prefix, slug);
        assert forall x :: x in rows ==> x.id < last.id by {
          forall x | x in rows ensures x.id < last.id {
            var i :| 0 <= i < n && prefix[i] == x;
            assert ledger[i] == x;
          }
        }
        AppendAboveAllIds(rows, last);
      }
    }
  }

  /** A row whose id exceeds every id of an ascending list extends it ascending. */
  lemma AppendAboveAllIds(rows: seq<Bid>, x: Bid)
    requires IdsAscending(rows)
    requires forall y :: y in rows ==> y.id < x.id
    ensures IdsAscending(rows + [x])
  {
    var all := rows + [x];
    forall i, j | 0 <= i < j < |all| ensures all[i].id < all[j].id {
      if j == |rows| { assert all[i] in rows; }
    }
  }

  /** Under the invariant the rows of one auction are strictly ascending. */
  lemma {:induction false} IncreasingRowsAscend(ledger: seq<Bid>, slug: string)
    requires Increasing(ledger)
    ensures StrictlyAscending(BidsFor(ledger, slug))
  {
    if ledger != [] {
      var n := |ledger| - 1;
      var prefix := ledger[..n];
      assert ledger == prefix + [ledger[n]];
      assert Increasing(prefix);
      IncreasingRowsAscend(prefix, slug);
      BidsForAppend(prefix, ledger[n], slug);
      var rows := BidsFor(prefix, slug);
      if ledger[n].auction == slug {
        forall x | x in rows ensures x.amount < ledger[n].amount {
          var i :| 0 <= i < n && prefix[i] == x;
          assert ledger[i] == x;
        }
        var all := rows + [ledger[n]];
        forall i, j | 0 <= i < j < |all| ensures all[i].amount < all[j].amount {
          if j == |rows| { assert all[i] in rows; }
        }
      }
    }
  }

  /** The most recently appended of some rows. */
  function Latest(rows: seq<Bid>): (b: Bid)
    requires rows != []
    ensures b in rows
  {
    rows[|rows| - 1]
  }

  /** Under the invariant the winning row is the latest row of the auction. */
  lemma HighestIsLatest(ledger: seq<Bid>, slug: string)
    requires Increasing(ledger)
    requires BidsFor(ledger, slug) != []
    ensures HighestBid(ledger, slug) == Some(Latest(BidsFor(ledger, slug)))
  {
    IncreasingRowsAscend(ledger, slug);
    LastIsHighest(BidsFor(ledger, slug));
  }

  /** In a strictly ascending list the greatest amount is the last one. */
  lemma LastIsHighest(rows: seq<Bid>)
    requires rows != [] && StrictlyAscending(rows)
    ensures HighestIndex(rows) == |rows| - 1
  {
    var k := HighestIndex(rows);
    var last := |rows| - 1;
    assert rows[last].amount <= rows[k].amount;
    assert rows[k].amount <= rows[last].amount;
  }

  /** `s` back to front. */
  function Reverse(s: seq<Bid>): (r: seq<Bid>)
    ensures |r| == |s|
    ensures forall i :: 0 <= i < |s| ==> r[i] == s[|s| - 1 - i]
  {
    if s == [] then [] else Reverse(s[1..]) + [s[0]]
  }

  /** A strictly ascending list sorts into its reverse. */
  lemma {:induction false} SortAscendingIsReverse(bids: seq<Bid>)
    requires StrictlyAscending(bids)
    ensures SortDesc(bids) == Reverse(bids)
  {
    if bids != [] {
      var tail := bids[1..];
      assert StrictlyAscending(tail);
      SortAscendingIsReverse(tail);
      InsertBelowAll(bids[0], Reverse(tail));
    }
  }

  /** A row below every row of a descending list goes to its end. */
  lemma {:induction false} InsertBelowAll(x: Bid, sorted: seq<Bid>)
    requires SortedDesc(sorted)
    requires forall i :: 0 <= i < |sorted| ==> x.amount < sorted[i].amount
    ensures InsertDesc(x, sorted) == sorted + [x]
  {
    if sorted != [] {
      InsertBelowAll(x, sorted[1..]);
    }
  }

  /**
   * Under the invariant the leaderboard is the auction's rows newest first:
   * ordering by amount and ordering by acceptance coincide.
   */
  lemma AllBidsNewestFirst(ledger: seq<Bid>, slug: string)
    requires Increasing(ledger)
    ensures AllBids(ledger, slug) == Reverse(BidsFor(ledger, slug))
  {
    IncreasingRowsAscend(ledger, slug);
    SortAscendingIsReverse(BidsFor(ledger, slug));
  }
}
