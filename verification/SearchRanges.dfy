/** What the activity census may expect of its search interface, and what a search result is:
    the capped pages, the ranges of seconds they cover, and the rows of a fixed collection.
    Instants are microseconds, search bounds whole seconds. */
module SearchRanges {
  import opened Prelude

  const SEARCH_CAP := 1000
  const PER_PAGE := 100
  const MICROS := 1000000

  /** The identity fields of a row, any of which may be missing. */
  datatype Identity = Identity(nodeId: Option<string>, id: Option<int>, url: Option<string>)

  /** A pull request as listed: when it was updated, if that parses, and the owner's
      repository it belongs to, if it is one of the owner's. */
  datatype Row = Row(identity: Identity, updatedAt: Option<int>, repository: Option<string>)

  datatype Listed = Object(row: Row) | NotAnObject

  datatype Page = Page(total: int, incomplete: bool, items: seq<Listed>)

  datatype Error =
    | RequestFailed | IncompleteResults | PartitionCap(second: int, total: int) | PartitionDrift | Truncated
    | IdentityMissing

  /** An interface that may answer every request in its own way, or fail: the request number,
      the two bounds and the page determine what happens. */
  type Interface = (nat, int, int, int) -> Option<Page>

  datatype Segment = Segment(since: int, until: int, total: int, retrieved: nat, depth: nat)

  function Rows(items: seq<Listed>): seq<Row> {
    if items == [] then []
    else Rows(items[..|items| - 1]) + match items[|items| - 1] case Object(row) => [row] case NotAnObject => []
  }

  // ----- The search bounds -----

  function FloorSecond(t: int): int {
    t / MICROS
  }

  function SearchBounds(since: int, until: int): (int, int) {
    var start := FloorSecond(since);
    var endFloor := FloorSecond(until);
    var end := if until % MICROS != 0 then endFloor else endFloor - 1;
    if end < start then (start, start) else (start, end)
  }

  /** The first second is the one that holds the start of the half-open window, the last one
      that which holds its last microsecond: the bounds cover the window, and no whole second
      at either end could be spared. */
  lemma BoundsAreTight(since: int, until: int)
    requires since < until
    ensures var (start, end) := SearchBounds(since, until);
            && start <= end
            && start * 1000000 <= since < (start + 1) * 1000000
            && end * 1000000 < until <= (end + 1) * 1000000
  {
  }

  // ----- What the code enforces of any interface -----

  /** Where segments that follow each other without gap or overlap from since on come to an
      end, if they do follow each other. */
  function TiledUpTo(segments: seq<Segment>, since: int): Option<int> {
    if segments == [] then Some(since - 1)
    else
      var last, before := segments[|segments| - 1], TiledUpTo(segments[..|segments| - 1], since);
      if before == Some(last.since - 1) && last.since <= last.until then Some(last.until) else None
  }

  predicate Tiles(segments: seq<Segment>, since: int, until: int) {
    TiledUpTo(segments, since) == Some(until)
  }

  function Retrieved(segments: seq<Segment>): nat {
    if segments == [] then 0 else Retrieved(segments[..|segments| - 1]) + segments[|segments| - 1].retrieved
  }

  function Pow2(n: nat): nat {
    if n == 0 then 1 else 2 * Pow2(n - 1)
  }

  /** A segment split off at depth d comes from a range of more than 2^(d-1) seconds. */
  predicate WithinDepth(s: Segment, depth: nat, seconds: int) {
    s.depth >= depth && (s.depth > depth ==> Pow2(s.depth - depth - 1) < seconds)
  }

  predicate Accepted(segments: seq<Segment>, depth: nat, seconds: int) {
    forall i :: 0 <= i < |segments| ==>
      segments[i].total <= 1000 && segments[i].total == segments[i].retrieved &&
      WithinDepth(segments[i], depth, seconds)
  }

  lemma {:induction false} RetrievedAppend(a: seq<Segment>, b: seq<Segment>)
    ensures Retrieved(a + b) == Retrieved(a) + Retrieved(b)
  {
    if b == [] {
      assert a + b == a;
    } else {
      RetrievedAppend(a, b[..|b| - 1]);
      assert (a + b)[..|a + b| - 1] == a + b[..|b| - 1];
    }
  }

  lemma HalvesAccepted(left: seq<Segment>, right: seq<Segment>, depth: nat, seconds: int, l: int, r: int)
    requires seconds >= 2 && l == (seconds + 1) / 2 && r == seconds / 2
    requires Accepted(left, depth + 1, l) && Accepted(right, depth + 1, r)
    ensures Accepted(left + right, depth, seconds)
  {
    forall i | 0 <= i < |left + right| ensures WithinDepth((left + right)[i], depth, seconds) {
      if i < |left| {
        HalfWithinDepth(left[i], depth, seconds, l);
      } else {
        HalfWithinDepth(right[i - |left|], depth, seconds, r);
      }
    }
  }

  lemma HalfWithinDepth(s: Segment, depth: nat, seconds: int, half: int)
    requires seconds >= 2 && 2 * half <= seconds + 1 && WithinDepth(s, depth + 1, half)
    ensures WithinDepth(s, depth, seconds)
  {
    if s.depth > depth + 1 { assert Pow2(s.depth - depth - 1) == 2 * Pow2(s.depth - depth - 2); }
  }

  lemma {:induction false} HalvesTile(left: seq<Segment>, right: seq<Segment>, start: int, mid: int)
    requires Tiles(left, start, mid)
    ensures TiledUpTo(left + right, start) == TiledUpTo(right, mid + 1)
  {
    if right == [] {
      assert left + right == left;
    } else {
      var k := |right| - 1;
      HalvesTile(left, right[..k], start, mid);
      assert (left + right)[..|left + right| - 1] == left + right[..k];
    }
  }

  // ----- An honest interface -----

  /** The row was updated in one of the seconds from start to end. */
  ghost predicate UpdatedBetween(row: Row, start: int, end: int) {
    row.updatedAt.Some? && start * 1000000 <= row.updatedAt.value < (end + 1) * 1000000
  }

  /** The rows of a fixed collection updated in a range of seconds. */
  ghost function InRange(rows: seq<Row>, start: int, end: int): seq<Row> {
    if rows == [] then []
    else
      var last := rows[|rows| - 1];
      InRange(rows[..|rows| - 1], start, end) +
      if UpdatedBetween(last, start, end) then [last] else []
  }

  function PageOf(listing: seq<Row>, page: int): seq<Listed>
    requires page >= 1
  {
    var from := if 100 * (page - 1) <= |listing| then 100 * (page - 1) else |listing|;
    var to := if 100 * page <= |listing| then 100 * page else |listing|;
    seq(to - from, i requires 0 <= i < to - from => Object(listing[from + i]))
  }

  /** How many pages of any one answer can be seen. */
  const PAGES := 10

  /** The interface answers each range from one fixed listing of the rows in that range, in
      whatever order, up to the last page that can be seen. Of what it does beyond that page
      nothing is known. */
  ghost predicate Honest(api: Interface, rows: seq<Row>, listing: (int, int) -> seq<Row>) {
    && (forall start, end :: multiset(listing(start, end)) == multiset(InRange(rows, start, end)))
    && forall n, start, end, page {:trigger api(n, start, end, page)} :: 1 <= page <= PAGES ==>
         api(n, start, end, page) == Some(Page(|listing(start, end)|, false, PageOf(listing(start, end), page)))
  }

  /** More rows fall into one second than the interface can show. */
  ghost predicate Crowded(rows: seq<Row>, start: int, end: int) {
    exists second :: start <= second <= end && |InRange(rows, second, second)| > 1000
  }

  lemma {:induction false} InRangeSplits(rows: seq<Row>, start: int, mid: int, end: int)
    requires start <= mid < end
    ensures multiset(InRange(rows, start, mid)) + multiset(InRange(rows, mid + 1, end)) ==
              multiset(InRange(rows, start, end))
    ensures |InRange(rows, start, mid)| + |InRange(rows, mid + 1, end)| == |InRange(rows, start, end)|
  {
    if rows == [] {
    } else {
      InRangeSplits(rows[..|rows| - 1], start, mid, end);
    }
  }

  lemma {:induction false} InRangeGrows(rows: seq<Row>, start: int, end: int, second: int)
    requires start <= second <= end
    ensures |InRange(rows, second, second)| <= |InRange(rows, start, end)|
  {
    if rows == [] {
    } else {
      InRangeGrows(rows[..|rows| - 1], start, end, second);
    }
  }

  lemma {:induction false} RowsOfPage(items: seq<Listed>, rows: seq<Row>)
    requires |items| == |rows| && forall i :: 0 <= i < |rows| ==> items[i] == Object(rows[i])
    ensures Rows(items) == rows
  {
    if rows == [] {
    } else {
      RowsOfPage(items[..|items| - 1], rows[..|rows| - 1]);
      assert rows == rows[..|rows| - 1] + [rows[|rows| - 1]];
    }
  }

  /** The first k pages, one after the other. */
  function Pages(listing: seq<Row>, k: nat): seq<Row> {
    if PER_PAGE * k <= |listing| then listing[..PER_PAGE * k] else listing
  }

  lemma NextPage(listing: seq<Row>, k: nat)
    ensures Pages(listing, k + 1) == Pages(listing, k) + Rows(PageOf(listing, k + 1))
  {
    var from := if PER_PAGE * k <= |listing| then PER_PAGE * k else |listing|;
    var to := if PER_PAGE * (k + 1) <= |listing| then PER_PAGE * (k + 1) else |listing|;
    RowsOfPage(PageOf(listing, k + 1), listing[from..to]);
  }

  function PageCount(total: int): int {
    var pages := (total + PER_PAGE - 1) / PER_PAGE;
    if pages >= 1 then pages else 1
  }

  /** As many pages as the rows take up, and one if there are none. */
  lemma PageCountExactly(total: nat)
    ensures var k := PageCount(total); k >= 1 && 100 * (k - 1) <= total <= 100 * k && (k > 1 ==> 100 * (k - 1) < total)
    ensures forall k :: 1 <= k && total <= 100 * k ==> PageCount(total) <= k
  {
  }

  lemma AllPages(listing: seq<Row>)
    ensures Pages(listing, PageCount(|listing|)) == listing
  {
    assert listing[..|listing|] == listing;
  }

  // ----- Search results -----

  /** The answer of an honest interface to any one request. */
  function Answer(listing: (int, int) -> seq<Row>, start: int, end: int, page: int): Page
    requires page >= 1
  {
    Page(|listing(start, end)|, false, PageOf(listing(start, end), page))
  }

  lemma HonestPage(api: Interface, rows: seq<Row>, listing: (int, int) -> seq<Row>, n: nat, start: int, end: int,
      page: int)
    requires Honest(api, rows, listing) && 1 <= page <= PAGES
    ensures api(n, start, end, page) == Some(Answer(listing, start, end, page))
  {
  }

  lemma HonestAnswer(api: Interface, rows: seq<Row>, listing: (int, int) -> seq<Row>, n: nat, start: int, end: int,
      page: int)
    requires Honest(api, rows, listing) && 1 <= page <= PAGES
    ensures api(n, start, end, page) == Some(Answer(listing, start, end, page))
    ensures |listing(start, end)| == |InRange(rows, start, end)|
    ensures multiset(listing(start, end)) == multiset(InRange(rows, start, end))
  {
    assert |multiset(listing(start, end))| == |listing(start, end)|;
    assert |multiset(InRange(rows, start, end))| == |InRange(rows, start, end)|;
  }

  /** An interface that shows nothing beyond the cap. */
  ghost predicate Capped(api: Interface) {
    forall n, start, end, page {:trigger api(n, start, end, page)} :: page > PAGES ==>
      api(n, start, end, page).Some? && api(n, start, end, page).value.items == []
  }

  ghost function CappedInterface(rows: seq<Row>): Interface {
    (n: nat, start: int, end: int, page: int) =>
      var listing := InRange(rows, start, end);
      Some(Page(|listing|, false, if 1 <= page <= PAGES then PageOf(listing, page) else []))
  }

  /** Whatever the rows, there is an honest interface to them that keeps to the cap. */
  lemma CappedAndHonest(rows: seq<Row>)
    ensures Capped(CappedInterface(rows))
    ensures Honest(CappedInterface(rows), rows, (start, end) => InRange(rows, start, end))
  {
  }

  // ----- Rows that were really shown -----

  /** An answer that is complete, and of which the interface shows everything. */
  ghost predicate Whole(answer: Option<Page>, total: int) {
    answer.Some? && !answer.value.incomplete && answer.value.total == total <= 1000
  }

  /** Some whole answer for a range between the two bounds shows the row. */
  ghost predicate Served(api: Interface, start: int, end: int, row: Row) {
    exists n, s, e, page {:trigger api(n, s, e, page)} :: start <= s <= e <= end &&
      api(n, s, e, page).Some? && Whole(api(n, s, e, page), api(n, s, e, page).value.total) &&
      Object(row) in api(n, s, e, page).value.items
  }

  ghost predicate AllServed(api: Interface, start: int, end: int, found: seq<Row>) {
    forall row :: row in found ==> Served(api, start, end, row)
  }

  lemma {:induction false} RowsMembers(items: seq<Listed>, row: Row)
    ensures row in Rows(items) <==> Object(row) in items
  {
    if items == [] {
    } else {
      RowsMembers(items[..|items| - 1], row);
      assert items == items[..|items| - 1] + [items[|items| - 1]];
    }
  }

  lemma PageServes(api: Interface, n: nat, start: int, end: int, page: int)
    requires start <= end && api(n, start, end, page).Some?
    requires Whole(api(n, start, end, page), api(n, start, end, page).value.total)
    ensures AllServed(api, start, end, Rows(api(n, start, end, page).value.items))
  {
    forall row | row in Rows(api(n, start, end, page).value.items) ensures Served(api, start, end, row) {
      RowsMembers(api(n, start, end, page).value.items, row);
    }
  }

  lemma ServedTogether(api: Interface, start: int, mid: int, end: int, a: seq<Row>, b: seq<Row>)
    requires start <= mid < end && AllServed(api, start, mid, a) && AllServed(api, mid + 1, end, b)
    ensures AllServed(api, start, end, a + b)
  {
    forall row | row in a + b ensures Served(api, start, end, row) {
      if row in a { assert Served(api, start, mid, row); } else { assert Served(api, mid + 1, end, row); }
    }
  }

  function RowsOf(answer: Option<Page>): seq<Row> {
    if answer.Some? then Rows(answer.value.items) else []
  }

  /** The rows of the first page and of the pages up to the given one, asked for in turn. */
  function Gathered(api: Interface, calls: nat, start: int, end: int, first: Page, page: nat): seq<Row> {
    if page <= 1 then Rows(first.items)
    else Gathered(api, calls, start, end, first, page - 1) + RowsOf(api(calls + page - 2, start, end, page))
  }

  lemma GatheredOneMore(api: Interface, calls: nat, start: int, end: int, first: Page, page: nat, answer: Page)
    requires page >= 2 && api(calls + page - 2, start, end, page) == Some(answer)
    ensures Gathered(api, calls, start, end, first, page) ==
              Gathered(api, calls, start, end, first, page - 1) + Rows(answer.items)
  {
  }

  ghost predicate WholePage(api: Interface, calls: nat, start: int, end: int, total: int, page: nat) {
    page >= 2 ==> Whole(api(calls + page - 2, start, end, page), total)
  }

  /** The pages after the first, up to the given one, were whole when asked for in turn. */
  ghost predicate WholeUpTo(api: Interface, calls: nat, start: int, end: int, total: int, page: nat) {
    forall p :: 2 <= p <= page ==> WholePage(api, calls, start, end, total, p)
  }

  lemma {:induction false} GatheredServed(api: Interface, calls: nat, start: int, end: int, first: Page, page: nat)
    requires start <= end && AllServed(api, start, end, Rows(first.items))
    requires WholeUpTo(api, calls, start, end, first.total, page)
    ensures AllServed(api, start, end, Gathered(api, calls, start, end, first, page))
  {
    if page <= 1 {
    } else {
      GatheredServed(api, calls, start, end, first, page - 1);
      assert WholePage(api, calls, start, end, first.total, page);
      PageServes(api, calls + page - 2, start, end, page);
    }
  }

  /** What has been read up to each page grows by what the next answer shows. */
  ghost predicate GrowsBy(api: Interface, calls: nat, start: int, end: int, upTo: nat -> seq<Row>, page: nat) {
    page >= 2 ==> upTo(page) == upTo(page - 1) + RowsOf(api(calls + page - 2, start, end, page))
  }

  lemma {:induction false} GatheredUpTo(api: Interface, calls: nat, start: int, end: int, first: Page,
                                        upTo: nat -> seq<Row>, page: nat)
    requires page >= 1 && upTo(1) == Rows(first.items)
    requires forall p :: 2 <= p <= page ==> GrowsBy(api, calls, start, end, upTo, p)
    ensures Gathered(api, calls, start, end, first, page) == upTo(page)
  {
    if page == 1 {
    } else {
      GatheredUpTo(api, calls, start, end, first, upTo, page - 1);
      assert GrowsBy(api, calls, start, end, upTo, page);
    }
  }

  lemma FirstPage(all: seq<Row>)
    ensures Pages(all, 1) == Rows(PageOf(all, 1))
  {
    NextPage(all, 0);
    assert Pages(all, 0) == [];
  }

  lemma GatheredHonest(api: Interface, rows: seq<Row>, listing: (int, int) -> seq<Row>, calls: nat,
                       start: int, end: int, page: nat)
    requires Honest(api, rows, listing) && 1 <= page <= PAGES
    ensures Gathered(api, calls, start, end, Answer(listing, start, end, 1), page) == Pages(listing(start, end), page)
  {
    var all := listing(start, end);
    var upTo := (k: nat) => Pages(all, k);
    forall p | 2 <= p <= page ensures GrowsBy(api, calls, start, end, upTo, p) {
      HonestAnswer(api, rows, listing, calls + p - 2, start, end, p);
      NextPage(all, p - 1);
    }
    FirstPage(all);
    GatheredUpTo(api, calls, start, end, Answer(listing, start, end, 1), upTo, page);
  }

  type Search = Result<(seq<Row>, seq<Segment>), Error>

  /** What holds of an accepted search whatever the interface answered. */
  predicate Accounted(found: seq<Row>, segments: seq<Segment>, start: int, end: int, depth: nat) {
    var accounted :=
      Tiles(segments, start, end) && Accepted(segments, depth, end - start + 1) && |found| == Retrieved(segments);
    accounted
  }

  /** The result of a search. When the interface is honest, a refusal names a second that is
      too crowded, and otherwise the rows of the range are all there, each once. */
  ghost predicate Holds(r: Search, honest: bool, rows: seq<Row>, start: int, end: int, depth: nat) {
    match r
    case Ok(pair) =>
      Accounted(pair.0, pair.1, start, end, depth) &&
      (honest ==> !Crowded(rows, start, end) && multiset(pair.0) == multiset(InRange(rows, start, end)))
    case Err(error) =>
      honest ==> Crowded(rows, start, end) && error.PartitionCap? && start <= error.second <= end &&
                 error.total == |InRange(rows, error.second, error.second)| > 1000
  }

  lemma CrowdedInAHalf(rows: seq<Row>, start: int, mid: int, end: int)
    requires start <= mid < end
    ensures Crowded(rows, start, end) <==> Crowded(rows, start, mid) || Crowded(rows, mid + 1, end)
  {
    if second :| start <= second <= end && |InRange(rows, second, second)| > SEARCH_CAP {
      if second <= mid { assert Crowded(rows, start, mid); } else { assert Crowded(rows, mid + 1, end); }
    }
  }

  function Joined(left: Search, right: Search): Search
    requires left.Ok? && right.Ok?
  {
    Ok((left.value.0 + right.value.0, left.value.1 + right.value.1))
  }

  lemma JoinHalves(left: Search, right: Search, honest: bool, rows: seq<Row>, start: int, mid: int, end: int,
      depth: nat)
    requires start <= mid < end && mid == start + (end - start) / 2 && left.Ok? && right.Ok?
    requires Holds(left, honest, rows, start, mid, depth + 1) && Holds(right, honest, rows, mid + 1, end, depth + 1)
    ensures Holds(Joined(left, right), honest, rows, start, end, depth)
  {
    HalvesTile(left.value.1, right.value.1, start, mid);
    HalvesAccepted(left.value.1, right.value.1, depth, end - start + 1, mid - start + 1, end - mid);
    RetrievedAppend(left.value.1, right.value.1);
    InRangeSplits(rows, start, mid, end);
    CrowdedInAHalf(rows, start, mid, end);
  }

  lemma FitsOrCrowded(rows: seq<Row>, start: int, end: int)
    requires start <= end
    ensures |InRange(rows, start, end)| <= SEARCH_CAP ==> !Crowded(rows, start, end)
    ensures start == end && |InRange(rows, start, end)| > SEARCH_CAP ==> Crowded(rows, start, end)
  {
    forall second | start <= second <= end ensures |InRange(rows, second, second)| <= |InRange(rows, start, end)| {
      InRangeGrows(rows, start, end, second);
    }
  }

  lemma LeafHolds(items: seq<Row>, honest: bool, rows: seq<Row>, start: int, end: int, depth: nat, total: int)
    requires start <= end && |items| == total <= SEARCH_CAP
    requires honest ==> multiset(items) == multiset(InRange(rows, start, end))
    ensures Holds(Ok((items, [Segment(start, end, total, |items|, depth)])), honest, rows, start, end, depth)
  {
    var segments := [Segment(start, end, total, |items|, depth)];
    assert Retrieved(segments) == Retrieved(segments[..0]) + |items|;
    assert TiledUpTo(segments[..0], start) == Some(start - 1);
    assert Tiles(segments, start, end) && Accepted(segments, depth, end - start + 1);
    assert |multiset(items)| == |items| && |multiset(InRange(rows, start, end))| == |InRange(rows, start, end)|;
    FitsOrCrowded(rows, start, end);
  }

  lemma CrowdedSecond(honest: bool, rows: seq<Row>, second: int, total: int, depth: nat)
    requires honest ==> total == |InRange(rows, second, second)| > SEARCH_CAP
    ensures Holds(Err(PartitionCap(second, total)), honest, rows, second, second, depth)
  {
    FitsOrCrowded(rows, second, second);
  }

  lemma RefusedHalf(half: Search, honest: bool, rows: seq<Row>, start: int, mid: int, end: int, depth: nat)
    requires start <= mid < end && half.Err?
    requires Holds(half, honest, rows, start, mid, depth + 1) || Holds(half, honest, rows, mid + 1, end, depth + 1)
    ensures Holds(half, honest, rows, start, end, depth)
  {
    CrowdedInAHalf(rows, start, mid, end);
  }

  lemma DepthLoosens(segments: seq<Segment>, depth: nat, seconds: int, more: int)
    requires Accepted(segments, depth, seconds) && seconds <= more
    ensures Accepted(segments, depth, more)
  {
    forall i | 0 <= i < |segments| ensures WithinDepth(segments[i], depth, more) {
      assert WithinDepth(segments[i], depth, seconds);
    }
  }

  /** The split at the root does not count as a level of depth. */
  lemma JoinAtRoot(left: Search, right: Search, honest: bool, rows: seq<Row>, start: int, mid: int, end: int)
    requires start <= mid < end && mid == start + (end - start) / 2 && left.Ok? && right.Ok?
    requires Holds(left, honest, rows, start, mid, 0) && Holds(right, honest, rows, mid + 1, end, 0)
    ensures Holds(Joined(left, right), honest, rows, start, end, 0)
  {
    HalvesTile(left.value.1, right.value.1, start, mid);
    DepthLoosens(left.value.1, 0, mid - start + 1, end - start + 1);
    DepthLoosens(right.value.1, 0, end - mid, end - start + 1);
    RetrievedAppend(left.value.1, right.value.1);
    InRangeSplits(rows, start, mid, end);
    CrowdedInAHalf(rows, start, mid, end);
  }

  /** The seconds of the range that the search of a segment started from: all of them, or those
      of its half when the root was split. */
  function StartedFrom(s: Segment, rootTotal: int, start: int, end: int): int {
    var mid := start + (end - start) / 2;
    if rootTotal <= 1000 then end - start + 1
    else if s.until <= mid then mid - start + 1
    else end - mid
  }

  predicate RootDepths(segments: seq<Segment>, rootTotal: int, start: int, end: int) {
    forall i :: 0 <= i < |segments| ==> WithinDepth(segments[i], 0, StartedFrom(segments[i], rootTotal, start, end))
  }

  lemma {:induction false} TilesInside(segments: seq<Segment>, since: int, until: int)
    requires Tiles(segments, since, until)
    ensures forall i :: 0 <= i < |segments| ==> since <= segments[i].since <= segments[i].until <= until
  {
    if segments == [] {
    } else {
      var k := |segments| - 1;
      TilesInside(segments[..k], since, segments[k].since - 1);
      forall i | 0 <= i < k ensures since <= segments[i].since <= segments[i].until <= until {
        assert segments[..k][i] == segments[i];
      }
    }
  }

  lemma HalvesAtRoot(left: seq<Segment>, right: seq<Segment>, rootTotal: int, start: int, mid: int, end: int)
    requires start <= mid < end && mid == start + (end - start) / 2 && rootTotal > SEARCH_CAP
    requires Tiles(left, start, mid) && Accepted(left, 0, mid - start + 1)
    requires Tiles(right, mid + 1, end) && Accepted(right, 0, end - mid)
    ensures RootDepths(left + right, rootTotal, start, end)
  {
    TilesInside(left, start, mid);
    TilesInside(right, mid + 1, end);
    forall i | 0 <= i < |left + right|
      ensures WithinDepth((left + right)[i], 0, StartedFrom((left + right)[i], rootTotal, start, end))
    {
      if i < |left| {
        assert WithinDepth(left[i], 0, mid - start + 1);
      } else {
        assert WithinDepth(right[i - |left|], 0, end - mid);
      }
    }
  }

  lemma RootRefused(half: Search, honest: bool, rows: seq<Row>, start: int, mid: int, end: int)
    requires start <= mid < end && half.Err?
    requires Holds(half, honest, rows, start, mid, 0) || Holds(half, honest, rows, mid + 1, end, 0)
    ensures Holds(half, honest, rows, start, end, 0)
  {
    CrowdedInAHalf(rows, start, mid, end);
  }

  // ----- Identities and the exact window -----

  datatype Key = Node(text: string) | Id(number: int) | Url(address: string)

  function StableKey(identity: Identity): Option<Key> {
    if identity.nodeId.Some? && identity.nodeId.value != "" then Some(Node(identity.nodeId.value))
    else if identity.id.Some? then Some(Id(identity.id.value))
    else if identity.url.Some? && identity.url.value != "" then Some(Url(identity.url.value))
    else None
  }

  // What identifies a row is said on its fields; the key that the census computes is compared with it below.

  ghost predicate HasNode(a: Identity) {
    a.nodeId.Some? && a.nodeId.value != ""
  }

  ghost predicate HasUrl(a: Identity) {
    a.url.Some? && a.url.value != ""
  }

  ghost predicate Identified(a: Identity) {
    HasNode(a) || a.id.Some? || HasUrl(a)
  }

  /** Two rows are of one pull request: their node ids agree; or neither has one, and their ids
      agree; or neither has either, and their urls agree. An empty text counts as missing. */
  ghost predicate SamePullRequest(a: Identity, b: Identity) {
    if HasNode(a) || HasNode(b) then HasNode(a) && HasNode(b) && a.nodeId.value == b.nodeId.value
    else if a.id.Some? || b.id.Some? then a.id.Some? && b.id.Some? && a.id.value == b.id.value
    else HasUrl(a) && HasUrl(b) && a.url.value == b.url.value
  }

  /** The key tells rows apart exactly as their fields do. */
  lemma KeysExactly(a: Identity, b: Identity)
    ensures StableKey(a).Some? <==> Identified(a)
    ensures StableKey(a).Some? && StableKey(a) == StableKey(b) <==> SamePullRequest(a, b)
  {
  }

  ghost predicate DistinctIdentities(rows: seq<Row>) {
    && (forall i :: 0 <= i < |rows| ==> Identified(rows[i].identity))
    && (forall i, j :: 0 <= i < j < |rows| ==> !SamePullRequest(rows[i].identity, rows[j].identity))
  }

  /** No earlier row has the identity of the i-th. */
  ghost predicate FirstOfItsKind(rows: seq<Row>, i: nat)
    requires i < |rows|
  {
    forall j :: 0 <= j < i ==> !SamePullRequest(rows[j].identity, rows[i].identity)
  }

  /** The first row of each identity is among the kept ones. */
  ghost predicate KeepsFirst(kept: seq<Row>, rows: seq<Row>) {
    forall i :: 0 <= i < |rows| && FirstOfItsKind(rows, i) ==> rows[i] in kept
  }

  ghost predicate Known(rows: seq<Row>, key: Identity) {
    exists row :: row in rows && SamePullRequest(row.identity, key)
  }

  /** The rows that remain when only the first of each identity is kept. */
  ghost function FirstRows(rows: seq<Row>): seq<Row> {
    if rows == [] then []
    else
      var kept, last := FirstRows(rows[..|rows| - 1]), rows[|rows| - 1];
      if Known(kept, last.identity) then kept else kept + [last]
  }

  lemma FirstRowsOneMore(rows: seq<Row>, i: nat)
    requires i < |rows|
    ensures var kept := FirstRows(rows[..i]);
            FirstRows(rows[..i + 1]) == if Known(kept, rows[i].identity) then kept else kept + [rows[i]]
  {
    assert rows[..i + 1][..i] == rows[..i];
  }

  lemma {:induction false} FirstRowsAmong(rows: seq<Row>, row: Row)
    requires row in FirstRows(rows)
    ensures row in rows
  {
    if rows == [] {
    } else if row in FirstRows(rows[..|rows| - 1]) {
      FirstRowsAmong(rows[..|rows| - 1], row);
    }
  }

  lemma KnownStays(kept: seq<Row>, last: Row, key: Identity)
    ensures Known(kept, key) ==> Known(kept + [last], key)
    ensures SamePullRequest(last.identity, key) ==> Known(kept + [last], key)
  {
    if row :| row in kept && SamePullRequest(row.identity, key) { assert row in kept + [last]; }
    assert last in kept + [last];
  }

  lemma {:induction false} FirstRowsCover(rows: seq<Row>, row: Row)
    requires row in rows && Identified(row.identity)
    ensures Known(FirstRows(rows), row.identity)
  {
    var k := |rows| - 1;
    KnownStays(FirstRows(rows[..k]), rows[k], row.identity);
    if row in rows[..k] {
      FirstRowsCover(rows[..k], row);
    } else {
      assert rows == rows[..k] + [rows[k]];
    }
  }

  lemma {:induction false} FirstRowsDistinct(rows: seq<Row>)
    requires forall row :: row in rows ==> Identified(row.identity)
    ensures DistinctIdentities(FirstRows(rows))
  {
    if rows == [] {
    } else {
      var kept, last := FirstRows(rows[..|rows| - 1]), rows[|rows| - 1];
      FirstRowsDistinct(rows[..|rows| - 1]);
      if !Known(kept, last.identity) {
        forall i | 0 <= i < |kept| ensures !SamePullRequest(kept[i].identity, last.identity) {
          assert kept[i] in kept;
        }
      }
    }
  }

  /** A row that is the first with its identity is kept. */
  lemma {:induction false} FirstRowsKeepFirst(rows: seq<Row>, i: nat)
    requires i < |rows| && FirstOfItsKind(rows, i)
    ensures rows[i] in FirstRows(rows)
  {
    var k := |rows| - 1;
    if i < k {
      FirstRowsKeepFirst(rows[..k], i);
    } else {
      forall row | row in FirstRows(rows[..k]) ensures !SamePullRequest(row.identity, rows[k].identity) {
        FirstRowsAmong(rows[..k], row);
        var j :| 0 <= j < k && rows[..k][j] == row;
      }
    }
  }

  /** The rows kept: one of each identity, the first one, and nothing else. */
  lemma FirstRowsKept(rows: seq<Row>)
    requires forall row :: row in rows ==> Identified(row.identity)
    ensures DistinctIdentities(FirstRows(rows)) && KeepsFirst(FirstRows(rows), rows)
    ensures forall u :: u in FirstRows(rows) ==> u in rows
    ensures forall row :: row in rows ==> Known(FirstRows(rows), row.identity)
  {
    FirstRowsDistinct(rows);
    forall i | 0 <= i < |rows| && FirstOfItsKind(rows, i) ensures rows[i] in FirstRows(rows) {
      FirstRowsKeepFirst(rows, i);
    }
    forall u | u in FirstRows(rows) ensures u in rows { FirstRowsAmong(rows, u); }
    forall row | row in rows ensures Known(FirstRows(rows), row.identity) { FirstRowsCover(rows, row); }
  }

  /** What deduplication has kept so far, and the keys of what it has kept. */
  datatype Kept = Kept(unique: seq<Row>, keys: set<Key>)

  ghost predicate KeysOf(k: Kept) {
    match k
    case Kept(unique, keys) =>
      forall x :: x in keys <==> exists row :: row in unique && StableKey(row.identity) == Some(x)
  }

  ghost predicate AllIdentifiable(rows: seq<Row>) {
    forall row :: row in rows ==> Identified(row.identity)
  }

  ghost predicate KeptSoFar(rows: seq<Row>, k: Kept) {
    match k
    case Kept(unique, _) => unique == FirstRows(rows) && KeysOf(k) && AllIdentifiable(rows)
  }

  lemma KeyIsKnown(k: Kept, identity: Identity)
    requires KeysOf(k) && StableKey(identity).Some?
    ensures StableKey(identity).value in k.keys <==> Known(k.unique, identity)
  {
    forall row | row in k.unique
      ensures SamePullRequest(row.identity, identity) <==> StableKey(row.identity) == StableKey(identity)
    {
      KeysExactly(row.identity, identity);
    }
  }

  lemma KeysGrow(k: Kept, last: Row, key: Key)
    requires KeysOf(k) && StableKey(last.identity) == Some(key)
    ensures KeysOf(Kept(k.unique + [last], k.keys + {key}))
  {
    var unique := k.unique + [last];
    assert last in unique;
    forall x ensures x in k.keys + {key} <==> exists row :: row in unique && StableKey(row.identity) == Some(x) {
      if row :| row in k.unique && StableKey(row.identity) == Some(x) { assert row in unique; }
    }
  }

  lemma OneMoreIdentified(rows: seq<Row>, i: nat)
    requires i < |rows| && AllIdentifiable(rows[..i]) && Identified(rows[i].identity)
    ensures AllIdentifiable(rows[..i + 1])
  {
    assert rows[..i + 1] == rows[..i] + [rows[i]];
  }

  lemma KeepOne(rows: seq<Row>, i: nat, k: Kept, key: Key)
    requires i < |rows| && KeptSoFar(rows[..i], k) && StableKey(rows[i].identity) == Some(key)
    ensures KeptSoFar(rows[..i + 1], if key in k.keys then k else Kept(k.unique + [rows[i]], k.keys + {key}))
  {
    FirstRowsOneMore(rows, i);
    KeysExactly(rows[i].identity, rows[i].identity);
    OneMoreIdentified(rows, i);
    KeyIsKnown(k, rows[i].identity);
    KeysGrow(k, rows[i], key);
  }

  /** Rows with different node ids are rows of different pull requests, whatever else they say. */
  lemma DifferentNodesAreDistinct(rows: seq<Row>)
    requires forall i :: 0 <= i < |rows| ==> rows[i].identity.nodeId.Some? && rows[i].identity.nodeId.value != ""
    requires forall i, j :: 0 <= i < j < |rows| ==> rows[i].identity.nodeId != rows[j].identity.nodeId
    ensures DistinctIdentities(rows)
  {
  }

  function UpdatedIn(rows: seq<Row>, since: int, until: int): set<string> {
    set row | row in rows && row.updatedAt.Some? && since <= row.updatedAt.value < until && row.repository.Some?
      :: row.repository.value
  }

  lemma {:induction false} InRangeMember(rows: seq<Row>, start: int, end: int, row: Row)
    ensures row in InRange(rows, start, end) <==>
              row in rows && UpdatedBetween(row, start, end)
  {
    if rows == [] {
    } else {
      InRangeMember(rows[..|rows| - 1], start, end, row);
      assert rows == rows[..|rows| - 1] + [rows[|rows| - 1]];
    }
  }

  lemma LastApart(rows: seq<Row>, row: Row)
    requires rows != [] && DistinctIdentities(rows) && row in rows[..|rows| - 1]
    ensures !SamePullRequest(row.identity, rows[|rows| - 1].identity)
  {
  }

  lemma {:induction false} InRangeDistinct(rows: seq<Row>, start: int, end: int)
    requires DistinctIdentities(rows)
    ensures DistinctIdentities(InRange(rows, start, end))
  {
    if rows == [] {
    } else {
      var k := |rows| - 1;
      var shorter := InRange(rows[..k], start, end);
      InRangeDistinct(rows[..k], start, end);
      forall i | 0 <= i < |shorter| ensures !SamePullRequest(shorter[i].identity, rows[k].identity) {
        assert shorter[i] in shorter;
        InRangeMember(rows[..k], start, end, shorter[i]);
        LastApart(rows, shorter[i]);
      }
    }
  }

  lemma CountOnce(rows: seq<Row>, row: Row)
    requires DistinctIdentities(rows)
    ensures multiset(rows)[row] == if row in rows then 1 else 0
  {
    if row in rows {
      var i :| 0 <= i < |rows| && rows[i] == row;
      assert rows == rows[..i] + [row] + rows[i + 1..];
      assert row !in rows[..i] && row !in rows[i + 1..];
    }
  }

  lemma SameMembers(a: seq<Row>, b: seq<Row>)
    requires multiset(a) == multiset(b)
    ensures forall row :: row in a <==> row in b
  {
    forall row ensures row in a <==> row in b {
      assert row in a <==> row in multiset(a);
      assert row in b <==> row in multiset(b);
    }
  }

  lemma AllIdentified(found: seq<Row>, rows: seq<Row>, start: int, end: int)
    requires DistinctIdentities(rows) && multiset(found) == multiset(InRange(rows, start, end))
    ensures forall row :: row in found ==> Identified(row.identity)
  {
    SameMembers(found, InRange(rows, start, end));
    forall row | row in found ensures Identified(row.identity) {
      InRangeMember(rows, start, end, row);
      var i :| 0 <= i < |rows| && rows[i] == row;
    }
  }

  /** Distinct rows taken from others are no more than those. */
  lemma NoMoreThan(unique: seq<Row>, found: seq<Row>)
    requires DistinctIdentities(unique) && forall row :: row in unique ==> row in found
    ensures |unique| <= |found|
  {
    forall row ensures multiset(unique)[row] <= multiset(found)[row] {
      CountOnce(unique, row);
      assert row in found <==> row in multiset(found);
    }
    assert multiset(unique) <= multiset(found);
    assert multiset(found) == multiset(unique) + (multiset(found) - multiset(unique));
    assert |multiset(unique)| == |unique| && |multiset(found)| == |found|;
  }

  lemma SameCount(unique: seq<Row>, range: seq<Row>, row: Row)
    requires DistinctIdentities(unique) && DistinctIdentities(range)
    requires forall u :: u in unique ==> u in range
    requires row in range ==> exists u :: u in unique && SamePullRequest(u.identity, row.identity)
    ensures multiset(unique)[row] == multiset(range)[row]
  {
    CountOnce(unique, row);
    CountOnce(range, row);
    if row in range {
      var u :| u in unique && SamePullRequest(u.identity, row.identity);
      SameKeySameRow(range, u, row);
    }
  }

  /** When identities are distinct to begin with, deduplication drops nothing. */
  lemma NothingLost(unique: seq<Row>, found: seq<Row>, rows: seq<Row>, start: int, end: int)
    requires DistinctIdentities(rows) && multiset(found) == multiset(InRange(rows, start, end))
    requires DistinctIdentities(unique) && forall row :: row in unique ==> row in found
    requires forall row :: row in found ==> Known(unique, row.identity)
    ensures multiset(unique) == multiset(InRange(rows, start, end)) && |unique| == |found|
  {
    var range := InRange(rows, start, end);
    InRangeDistinct(rows, start, end);
    SameMembers(found, range);
    forall row ensures multiset(unique)[row] == multiset(range)[row] { SameCount(unique, range, row); }
    assert multiset(unique) == multiset(range);
    assert |multiset(unique)| == |unique| && |multiset(found)| == |found|;
  }

  lemma SameKeySameRow(rows: seq<Row>, a: Row, b: Row)
    requires DistinctIdentities(rows) && a in rows && b in rows && SamePullRequest(a.identity, b.identity)
    ensures a == b
  {
  }

  /** The rows found in the search bounds show everything that was updated in the window. */
  lemma WindowIsCovered(found: seq<Row>, rows: seq<Row>, since: int, until: int)
    requires since < until
    requires var (start, end) := SearchBounds(since, until); multiset(found) == multiset(InRange(rows, start, end))
    ensures UpdatedIn(found, since, until) == UpdatedIn(rows, since, until)
  {
    var (start, end) := SearchBounds(since, until);
    BoundsAreTight(since, until);
    SameMembers(found, InRange(rows, start, end));
    forall row ensures row in found <==>
        row in rows && UpdatedBetween(row, start, end)
    {
      InRangeMember(rows, start, end, row);
    }
  }
}
