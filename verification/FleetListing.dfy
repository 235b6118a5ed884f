/** Paged listing and expiry check, as the fleet password client and the fleet
    certificate client both do them. */
module FleetListing {
  import opened Basics

  /** A managed password account or certificate; an expiry of 0 stands for none. */
  datatype Item = Item(key: string, expiryDate: int)

  /** What one query returns: a page, and the total it claims if it claims one. */
  datatype Response = Response(chunk: seq<Item>, totalCount: Option<int>)

  function Min(a: int, b: int): int {
    if a < b then a else b
  }

  /** A server with fixed contents that always claims the same total. */
  datatype Server = Server(contents: seq<Item>, claim: Option<int>) {
    function Query(page: nat, pageSize: nat): Response {
      var n := |contents|;
      Response(contents[Min(page * pageSize, n)..Min(page * pageSize + pageSize, n)], claim)
    }
  }

  /** What has been collected after `k` pages. */
  function Collected(s: Server, pageSize: nat, k: nat): seq<Item> {
    s.contents[..Min(k * pageSize, |s.contents|)]
  }

  /** The loop stops after page `k`: the page was empty, or the total is reached;
      a server that claims no total is taken to have sent everything. */
  predicate StopsAfter(s: Server, pageSize: nat, k: nat)
    requires k > 0
  {
    || Min((k - 1) * pageSize, |s.contents|) == |s.contents|
    || |Collected(s, pageSize, k)| >= s.claim.Or(|Collected(s, pageSize, k)|)
  }

  lemma PageBounds(k: nat, pageSize: nat)
    requires k > 0
    ensures (k - 1) * pageSize + pageSize == k * pageSize
  {
  }

  method List(s: Server, pageSize: nat) returns (items: seq<Item>, totalCount: int, requests: nat)
    requires pageSize > 0
    ensures requests > 0 && items == Collected(s, pageSize, requests)
    ensures totalCount == s.claim.Or(|items|)
    ensures StopsAfter(s, pageSize, requests)
    ensures forall k :: 0 < k < requests ==> !StopsAfter(s, pageSize, k)
  {
    items, totalCount := [], 0;
    var page := 0;
    while true
      invariant items == Collected(s, pageSize, page)
      invariant forall k :: 0 < k <= page ==> !StopsAfter(s, pageSize, k)
      decreases |s.contents| - |items|, if page == 0 then 1 else 0
    {
      var response := s.Query(page, pageSize);
      PageBounds(page + 1, pageSize);
      assert items + response.chunk == Collected(s, pageSize, page + 1);
      items := items + response.chunk;
      totalCount := response.totalCount.Or(|items|);
      if response.chunk == [] || |items| >= totalCount {
        assert StopsAfter(s, pageSize, page + 1);
        requests := page + 1;
        return;
      }
      page := page + 1;
    }
  }

  function PagesFor(n: nat, pageSize: nat): nat
    requires pageSize > 0
  {
    (n + pageSize - 1) / pageSize
  }

  lemma PagesForIs(n: nat, pageSize: nat, k: nat)
    requires pageSize > 0
    ensures k * pageSize >= n <==> k >= PagesFor(n, pageSize)
  {
    var q := PagesFor(n, pageSize);
    assert q * pageSize <= n + pageSize - 1 < (q + 1) * pageSize;
    PageBounds(q + 1, pageSize);
    if k >= q {
      MulMonotone(q, k, pageSize);
    } else {
      MulMonotone(k + 1, q, pageSize);
      PageBounds(k + 1, pageSize);
    }
  }

  /** With a truthful total the loop returns the whole listing, in order, and asks
      for exactly as many pages as the listing fills, but at least one. */
  lemma TruthfulListing(s: Server, pageSize: nat, requests: nat)
    requires pageSize > 0 && requests > 0 && s.claim == Some(|s.contents|)
    requires StopsAfter(s, pageSize, requests) && forall k :: 0 < k < requests ==> !StopsAfter(s, pageSize, k)
    ensures Collected(s, pageSize, requests) == s.contents
    ensures requests == if s.contents == [] then 1 else PagesFor(|s.contents|, pageSize)
  {
    var n := |s.contents|;
    var last := if n == 0 then 1 else PagesFor(n, pageSize);
    PagesForIs(n, pageSize, requests);
    PagesForIs(n, pageSize, requests - 1);
    PagesForIs(n, pageSize, 0);
    assert (requests - 1) * pageSize >= 0;
    PageBounds(requests, pageSize);
    if last < requests {
      PagesForIs(n, pageSize, last);
      assert StopsAfter(s, pageSize, last);
    }
  }

  /** Whatever total the server claims, the listing is complete exactly when it
      fits on one page, or the claim exceeds what all pages but the last hold. A
      server that claims none is cut off after its first page. */
  lemma CompleteIff(s: Server, pageSize: nat, requests: nat)
    requires pageSize > 0 && requests > 0
    requires StopsAfter(s, pageSize, requests) && forall k :: 0 < k < requests ==> !StopsAfter(s, pageSize, k)
    ensures Collected(s, pageSize, requests) == s.contents <==>
      |s.contents| <= pageSize
      || (s.claim.Some? && s.claim.value > (PagesFor(|s.contents|, pageSize) - 1) * pageSize)
  {
    var n := |s.contents|;
    var full := PagesFor(n, pageSize);
    PagesForIs(n, pageSize, requests);
    PagesForIs(n, pageSize, requests - 1);
    PagesForIs(n, pageSize, 1);
    PageBounds(requests, pageSize);
    assert Collected(s, pageSize, requests) == s.contents <==> requests >= full by {
      assert |Collected(s, pageSize, requests)| == Min(requests * pageSize, n);
    }
    if n > pageSize {
      assert full >= 2;
      PagesForIs(n, pageSize, full - 1);
      if requests >= full {
        assert !StopsAfter(s, pageSize, full - 1);
      } else {
        assert |Collected(s, pageSize, requests)| == requests * pageSize;
        MulMonotone(requests, full - 1, pageSize);
      }
    }
  }

  /** Two items and pages of one: without a claimed total the second is not listed. */
  lemma NoTotalCutsOff() returns (s: Server)
    ensures s.claim == None && StopsAfter(s, 1, 1) && Collected(s, 1, 1) != s.contents
  {
    s := Server([Item("root", 0), Item("admin", 0)], None);
    CompleteIff(s, 1, 1);
  }

  // ----- expiry -----

  /** An item with the milliseconds left until it expires. */
  datatype Dated = Dated(item: Item, delta: int)

  const DAY := 86400 * 1000

  predicate NoExpiry(i: Item) {
    i.expiryDate == 0
  }

  predicate Expiring(now: int, thresholdDays: int, i: Item) {
    i.expiryDate != 0 && i.expiryDate - now <= thresholdDays * DAY
  }

  predicate Fine(now: int, thresholdDays: int, i: Item) {
    i.expiryDate != 0 && i.expiryDate - now > thresholdDays * DAY
  }

  function Dates(now: int, items: seq<Item>): seq<Dated> {
    seq(|items|, k requires 0 <= k < |items| => Dated(items[k], items[k].expiryDate - now))
  }

  function FineItems(now: int, thresholdDays: int, items: seq<Item>): seq<Item> {
    Filter(i => Fine(now, thresholdDays, i), items)
  }

  function ExpiringItems(now: int, thresholdDays: int, items: seq<Item>): seq<Item> {
    Filter(i => Expiring(now, thresholdDays, i), items)
  }

  function UnlimitedItems(items: seq<Item>): seq<Item> {
    Filter(i => NoExpiry(i), items)
  }

  /** An item without expiry date is neither; any other is expiring when at most that
      many days of 86400000 milliseconds are left, and fine when more are left. */
  lemma KindsAre(now: int, days: int, key: string, left: int)
    ensures now + left != 0 ==>
      && Expiring(now, days, Item(key, now + left)) == (left <= 86400000 * days)
      && Fine(now, days, Item(key, now + left)) == (left > 86400000 * days)
      && !NoExpiry(Item(key, now + left))
    ensures NoExpiry(Item(key, 0)) && !Expiring(now, days, Item(key, 0)) && !Fine(now, days, Item(key, 0))
  {
  }

  lemma OneMore(now: int, days: int, items: seq<Item>, i: Item)
    ensures FineItems(now, days, items + [i]) == FineItems(now, days, items) + if Fine(now, days, i) then [i] else []
    ensures ExpiringItems(now, days, items + [i]) ==
      ExpiringItems(now, days, items) + if Expiring(now, days, i) then [i] else []
    ensures UnlimitedItems(items + [i]) == UnlimitedItems(items) + if NoExpiry(i) then [i] else []
  {
    FilterAppend(i => Fine(now, days, i), items, [i]);
    FilterAppend(i => Expiring(now, days, i), items, [i]);
    FilterAppend(i => NoExpiry(i), items, [i]);
    assert [i][1..] == [];
  }

  /** Every item is in exactly one bucket, as often as it is listed; so the three
      counts add up to the number of items listed. */
  lemma {:induction false} BucketsPartition(now: int, days: int, items: seq<Item>)
    ensures multiset(FineItems(now, days, items)) + multiset(ExpiringItems(now, days, items)) +
      multiset(UnlimitedItems(items))
      == multiset(items)
    ensures |FineItems(now, days, items)| + |ExpiringItems(now, days, items)| + |UnlimitedItems(items)| == |items|
  {
    if items == [] {
    } else {
      BucketsPartition(now, days, items[1..]);
      assert items == [items[0]] + items[1..];
    }
  }

  /** The three buckets are the items of each kind listed, in listing order; with
      a truthful server they hold all there are, and the counts add up to its total. */
  method CheckExpiry(s: Server, pageSize: nat, now: int, thresholdDays: int)
    returns (ok: seq<Dated>, expiring: seq<Dated>, noExpiry: seq<Item>, totalCount: int)
    requires pageSize > 0
    ensures var n := |ok| + |expiring| + |noExpiry|;
      && n <= |s.contents| && (s.claim == Some(|s.contents|) ==> n == |s.contents|)
      && ok == Dates(now, FineItems(now, thresholdDays, s.contents[..n]))
      && expiring == Dates(now, ExpiringItems(now, thresholdDays, s.contents[..n]))
      && noExpiry == UnlimitedItems(s.contents[..n])
      && totalCount == s.claim.Or(n)
  {
    var listed, total, requests := List(s, pageSize);
    totalCount := total;
    assert listed == s.contents[..|listed|];
    if s.claim == Some(|s.contents|) {
      TruthfulListing(s, pageSize, requests);
    }
    ok, expiring, noExpiry := [], [], [];
    for k := 0 to |listed|
      invariant ok == Dates(now, FineItems(now, thresholdDays, listed[..k]))
      invariant expiring == Dates(now, ExpiringItems(now, thresholdDays, listed[..k]))
      invariant noExpiry == UnlimitedItems(listed[..k])
    {
      var item := listed[k];
      OneMore(now, thresholdDays, listed[..k], item);
      assert listed[..k + 1] == listed[..k] + [item];
      if item.expiryDate == 0 {
        noExpiry := noExpiry + [item];
      } else {
        var delta := item.expiryDate - now;
        if delta <= thresholdDays * DAY {
          expiring := expiring + [Dated(item, delta)];
        } else {
          ok := ok + [Dated(item, delta)];
        }
      }
    }
    assert listed[..|listed|] == listed;
    BucketsPartition(now, thresholdDays, listed);
  }

  lemma {:induction false} FilterTwice(p: Item -> bool, q: Item -> bool, items: seq<Item>)
    requires forall i :: p(i) ==> q(i)
    ensures Filter(p, Filter(q, items)) == Filter(p, items)
  {
    if items == [] {
    } else {
      FilterTwice(p, q, items[1..]);
      FilterAppend(p, if q(items[0]) then [items[0]] else [], Filter(q, items[1..]));
      assert [items[0]][1..] == [];
    }
  }

  /** Raising the threshold only moves items from the fine ones to the expiring
      ones: what is still fine was fine, in the same order, and what was expiring
      still is; items without expiry stay. */
  lemma RaisingThreshold(now: int, days: int, more: int, items: seq<Item>)
    requires days <= more
    ensures FineItems(now, more, items) == FineItems(now, more, FineItems(now, days, items))
    ensures ExpiringItems(now, days, items) == ExpiringItems(now, days, ExpiringItems(now, more, items))
  {
    assert days * DAY <= more * DAY;
    FilterTwice(i => Fine(now, more, i), i => Fine(now, days, i), items);
    FilterTwice(i => Expiring(now, days, i), i => Expiring(now, more, i), items);
  }
}
