/** The pull-request sensor of the activity census: recursive bisection of a time range
    against a search interface that shows at most a thousand rows of any answer. */
module ActivityCensus {
  import opened Prelude
  import opened SearchRanges

  /** Reads the remaining pages of a range that fits, and checks that none is missing. */
  method ReadPages(api: Interface, calls: nat, start: int, end: int, first: Page,
                   ghost rows: seq<Row>, ghost listing: (int, int) -> seq<Row>)
    returns (r: Result<seq<Row>, Error>, calls': nat)
    requires start <= end && first.total <= SEARCH_CAP && AllServed(api, start, end, Rows(first.items))
    ensures r.Ok? ==> |r.value| == first.total && AllServed(api, start, end, r.value)
    ensures Honest(api, rows, listing) && first == Answer(listing, start, end, 1) ==> r == Ok(listing(start, end))
  {
    ghost var honest := Honest(api, rows, listing) && first == Answer(listing, start, end, 1);
    var pages := PageCount(first.total);
    r, calls' := ReadOn(api, calls, start, end, first, pages, honest, rows, listing);
    if r.Ok? { GatheredServed(api, calls, start, end, first, pages); }
    if honest {
      GatheredHonest(api, rows, listing, calls, start, end, pages);
      AllPages(listing(start, end));
    }
    if r.Ok? && |r.value| != first.total {
      return Err(Truncated), calls';
    }
  }

  method ReadOn(api: Interface, calls: nat, start: int, end: int, first: Page, pages: nat,
                ghost honest: bool, ghost rows: seq<Row>, ghost listing: (int, int) -> seq<Row>)
    returns (r: Result<seq<Row>, Error>, calls': nat)
    requires 1 <= pages <= PAGES && first.total <= SEARCH_CAP
    requires honest ==> Honest(api, rows, listing) && first == Answer(listing, start, end, 1)
    ensures r.Ok? ==> r.value == Gathered(api, calls, start, end, first, pages) &&
                      WholeUpTo(api, calls, start, end, first.total, pages)
    ensures honest ==> r.Ok?
  {
    var items := Rows(first.items);
    calls' := calls;
    for page := 2 to pages + 1
      invariant calls' == calls + page - 2 && items == Gathered(api, calls, start, end, first, page - 1)
      invariant WholeUpTo(api, calls, start, end, first.total, page - 1)
    {
      var answer := api(calls', start, end, page);
      if honest { HonestPage(api, rows, listing, calls', start, end, page); }
      calls' := calls' + 1;
      if answer.None? {
        return Err(RequestFailed), calls';
      }
      if answer.value.incomplete {
        return Err(IncompleteResults), calls';
      }
      if answer.value.total != first.total {
        return Err(PartitionDrift), calls';
      }
      GatheredOneMore(api, calls, start, end, first, page, answer.value);
      assert WholePage(api, calls, start, end, first.total, page);
      items := items + Rows(answer.value.items);
    }
    return Ok(items), calls';
  }

  /** A range that fits the cap is read page by page. */
  method SearchLeaf(api: Interface, calls: nat, start: int, end: int, depth: nat, first: Page,
                    ghost honest: bool, ghost rows: seq<Row>, ghost listing: (int, int) -> seq<Row>)
    returns (r: Search, calls': nat)
    requires start <= end && first.total <= SEARCH_CAP && AllServed(api, start, end, Rows(first.items))
    requires honest ==> Honest(api, rows, listing) && first == Answer(listing, start, end, 1)
    requires honest ==> multiset(listing(start, end)) == multiset(InRange(rows, start, end))
    ensures Holds(r, honest, rows, start, end, depth)
    ensures r.Ok? ==> AllServed(api, start, end, r.value.0)
  {
    var items;
    items, calls' := ReadPages(api, calls, start, end, first, rows, listing);
    if items.Err? {
      return Err(items.error), calls';
    }
    LeafHolds(items.value, honest, rows, start, end, depth, first.total);
    return Ok((items.value, [Segment(start, end, first.total, |items.value|, depth)])), calls';
  }

  /** The recursive search. A caller that knows the interface to be honest over some rows,
      with some listing, says so in the ghost parameters and learns that the result is exact. */
  method SearchPartition(api: Interface, calls: nat, start: int, end: int, depth: nat,
                         ghost honest: bool, ghost rows: seq<Row>, ghost listing: (int, int) -> seq<Row>)
    returns (r: Search, calls': nat)
    requires start <= end
    requires honest ==> Honest(api, rows, listing)
    ensures Holds(r, honest, rows, start, end, depth)
    ensures r.Ok? ==> AllServed(api, start, end, r.value.0)
    decreases end - start, 1
  {
    var answer := api(calls, start, end, 1);
    calls' := calls + 1;
    if honest {
      HonestAnswer(api, rows, listing, calls, start, end, 1);
    }
    if answer.None? {
      return Err(RequestFailed), calls';
    }
    var first := answer.value;
    if first.incomplete {
      return Err(IncompleteResults), calls';
    }
    if first.total > SEARCH_CAP {
      if start >= end {
        CrowdedSecond(honest, rows, start, first.total, depth);
        return Err(PartitionCap(start, first.total)), calls';
      }
      r, calls' := Bisect(api, calls', start, end, depth, honest, rows, listing);
      return r, calls';
    }
    PageServes(api, calls, start, end, 1);
    r, calls' := SearchLeaf(api, calls', start, end, depth, first, honest, rows, listing);
  }

  /** A range that does not fit is searched half by half, the left one first. */
  method Bisect(api: Interface, calls: nat, start: int, end: int, depth: nat,
                ghost honest: bool, ghost rows: seq<Row>, ghost listing: (int, int) -> seq<Row>)
    returns (r: Search, calls': nat)
    requires start < end
    requires honest ==> Honest(api, rows, listing)
    ensures Holds(r, honest, rows, start, end, depth)
    ensures r.Ok? ==> AllServed(api, start, end, r.value.0)
    decreases end - start, 0
  {
    var midpoint := start + (end - start) / 2;
    var left, right;
    left, calls' := SearchPartition(api, calls, start, midpoint, depth + 1, honest, rows, listing);
    if left.Err? {
      RefusedHalf(left, honest, rows, start, midpoint, end, depth);
      return left, calls';
    }
    right, calls' := SearchPartition(api, calls', midpoint + 1, end, depth + 1, honest, rows, listing);
    if right.Err? {
      RefusedHalf(right, honest, rows, start, midpoint, end, depth);
      return right, calls';
    }
    JoinHalves(left, right, honest, rows, start, midpoint, end, depth);
    ServedTogether(api, start, midpoint, end, left.value.0, right.value.0);
    return Joined(left, right), calls';
  }

  // ----- The whole window -----

  /** The search over the bounds of the window, split once more at the root when the first
      answer is too large. */
  method SearchWindow(api: Interface, start: int, end: int,
                      ghost honest: bool, ghost rows: seq<Row>, ghost listing: (int, int) -> seq<Row>)
    returns (r: Search, rootTotal: int)
    requires start <= end
    requires honest ==> Honest(api, rows, listing)
    ensures Holds(r, honest, rows, start, end, 0)
    ensures r.Ok? ==> RootDepths(r.value.1, rootTotal, start, end) && AllServed(api, start, end, r.value.0)
  {
    var answer := api(0, start, end, 1);
    if honest { HonestAnswer(api, rows, listing, 0, start, end, 1); }
    if answer.None? {
      return Err(RequestFailed), 0;
    }
    var root := answer.value;
    rootTotal := root.total;
    if root.incomplete {
      return Err(IncompleteResults), rootTotal;
    }
    var calls;
    if rootTotal <= SEARCH_CAP {
      r, calls := SearchPartition(api, 1, start, end, 0, honest, rows, listing);
      return r, rootTotal;
    }
    if start >= end {
      CrowdedSecond(honest, rows, start, rootTotal, 0);
      return Err(PartitionCap(start, rootTotal)), rootTotal;
    }
    var midpoint := start + (end - start) / 2;
    var left, right;
    left, calls := SearchPartition(api, 1, start, midpoint, 0, honest, rows, listing);
    if left.Err? {
      RootRefused(left, honest, rows, start, midpoint, end);
      return left, rootTotal;
    }
    right, calls := SearchPartition(api, calls, midpoint + 1, end, 0, honest, rows, listing);
    if right.Err? {
      RootRefused(right, honest, rows, start, midpoint, end);
      return right, rootTotal;
    }
    JoinAtRoot(left, right, honest, rows, start, midpoint, end);
    ServedTogether(api, start, midpoint, end, left.value.0, right.value.0);
    HalvesAtRoot(left.value.1, right.value.1, rootTotal, start, midpoint, end);
    return Joined(left, right), rootTotal;
  }

  /** Keeps the first row of each identity; a row without any is refused. */
  method Deduplicate(found: seq<Row>) returns (r: Result<seq<Row>, Error>)
    ensures r.Ok? <==> forall row :: row in found ==> Identified(row.identity)
    ensures r.Ok? ==> r.value == FirstRows(found)
    ensures r.Err? ==> r.error == IdentityMissing
  {
    var keys: set<Key>, unique: seq<Row> := {}, [];
    for i := 0 to |found|
      invariant KeptSoFar(found[..i], Kept(unique, keys))
    {
      var key := StableKey(found[i].identity);
      if key.None? {
        KeysExactly(found[i].identity, found[i].identity);
        assert found[i] in found;
        return Err(IdentityMissing);
      }
      KeepOne(found, i, Kept(unique, keys), key.value);
      if key.value !in keys {
        keys, unique := keys + {key.value}, unique + [found[i]];
      }
    }
    assert found[..|found|] == found;
    return Ok(unique);
  }

  /** The repositories with a pull request updated in the half-open window. */
  method ActiveRepositories(prs: seq<Row>, since: int, until: int) returns (active: set<string>)
    ensures active == UpdatedIn(prs, since, until)
  {
    active := {};
    for i := 0 to |prs|
      invariant active == UpdatedIn(prs[..i], since, until)
    {
      assert prs[..i + 1] == prs[..i] + [prs[i]];
      var updated, repository := prs[i].updatedAt, prs[i].repository;
      if updated.Some? && repository.Some? && since <= updated.value < until {
        active := active + {repository.value};
      }
    }
    assert prs[..|prs|] == prs;
  }

  /** The pull-request half of the census. Over an honest interface to rows with distinct
      identities it is refused exactly when some second of the window is too crowded;
      otherwise nothing is lost, doubled or invented, and the active repositories are those
      with an update inside the exact window. */
  method PullRequestCensus(api: Interface, since: int, until: int,
                           ghost honest: bool, ghost rows: seq<Row>, ghost listing: (int, int) -> seq<Row>)
    returns (r: Result<(seq<Row>, set<string>, seq<Segment>), Error>, rootTotal: int, retrieved: int)
    requires since < until
    requires honest ==> Honest(api, rows, listing) && DistinctIdentities(rows)
    ensures r.Ok? ==>
      var (start, end) := SearchBounds(since, until);
      Tiles(r.value.2, start, end) && Accepted(r.value.2, 0, end - start + 1) &&
      retrieved == Retrieved(r.value.2) && |r.value.0| <= retrieved && DistinctIdentities(r.value.0) &&
      AllServed(api, start, end, r.value.0) &&
      r.value.1 == UpdatedIn(r.value.0, since, until) && RootDepths(r.value.2, rootTotal, start, end)
    ensures honest ==>
      var (start, end) := SearchBounds(since, until);
      if Crowded(rows, start, end) then r.Err? && r.error.PartitionCap?
      else r.Ok? && |r.value.0| == retrieved && multiset(r.value.0) == multiset(InRange(rows, start, end)) &&
           r.value.1 == UpdatedIn(rows, since, until)
  {
    BoundsAreTight(since, until);
    var (start, end) := SearchBounds(since, until);
    retrieved := 0;
    var search;
    search, rootTotal := SearchWindow(api, start, end, honest, rows, listing);
    if search.Err? {
      return Err(search.error), rootTotal, retrieved;
    }
    var found := search.value.0;
    retrieved := |found|;
    if honest { AllIdentified(found, rows, start, end); }
    var unique := Deduplicate(found);
    if unique.Err? {
      return Err(unique.error), rootTotal, retrieved;
    }
    FirstRowsKept(found);
    NoMoreThan(unique.value, found);
    if honest {
      NothingLost(unique.value, found, rows, start, end);
      WindowIsCovered(unique.value, rows, since, until);
    }
    var active := ActiveRepositories(unique.value, since, until);
    return Ok((unique.value, active, search.value.1)), rootTotal, retrieved;
  }
}
