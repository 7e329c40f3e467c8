/** The exact-subject evidence manifest: a normaliser whose verifier replays it. The digest is
    a free constructor over the manifest body. */
module EvidenceManifest {
  import opened Prelude
  import opened Text
  import opened Ordering

  datatype Details = Empty | Details(json: string)

  /** A recorded time as presented: a text, or something that is neither a text nor nothing. */
  datatype Recorded = Time(text: string) | NotText

  /** An observation as presented: any field may be missing; a text field that holds
      something else counts as missing. */
  datatype Observation =
    | Observation(repo: Option<string>, sha: Option<string>, sensor: Option<string>, result: Option<string>,
                  evidenceId: Option<string>, recordedAt: Option<Recorded>, details: Option<Details>)
    | NotAnObject

  const RESULTS := ["FAIL", "PASS", "PENDING", "UNKNOWN", "UNSUPPORTED"]

  datatype Body = Body(schema: string, repo: string, sha: string, observations: seq<Observation>,
                       counts: map<string, nat>, standing: string, reason: string,
                       authority: string, claimCeiling: string)

  datatype Digest = OfBody(body: Body) | OtherText(text: string)

  datatype Receipt = Receipt(algorithm: string, digest: Option<Digest>)

  datatype Manifest = Manifest(body: Body, receipt: Option<Receipt>)

  datatype Refusal =
    | InvalidRepository | InvalidSubjectSha
    | MalformedObservation | ForeignSubject | MissingSensor | InvalidResult | MissingEvidenceId | InvalidRecordedAt
    | ConflictingDuplicate
    | InvalidReceipt | ReceiptMismatch | ReplayMismatch

  // ----- Normalising -----

  predicate RepoPart(s: string) {
    s != "" && forall i :: 0 <= i < |s| ==> NameChar(s[i])
  }

  predicate RepositoryName(s: string) {
    exists i :: 0 <= i < |s| && s[i] == '/' && RepoPart(s[..i]) && RepoPart(s[i + 1..])
  }

  /** An owner, a slash, a name. */
  ghost predicate OwnerAndName(s: string, owner: string, name: string) {
    s == owner + "/" + name && owner != "" && name != "" && forall c :: c in owner || c in name ==> NameChar(c)
  }

  ghost predicate IsRepository(s: string) {
    exists owner, name :: OwnerAndName(s, owner, name)
  }

  lemma RepositoryExactly(s: string)
    ensures RepositoryName(s) <==> IsRepository(s)
  {
    if i :| 0 <= i < |s| && s[i] == '/' && RepoPart(s[..i]) && RepoPart(s[i + 1..]) {
      assert s == s[..i] + "/" + s[i + 1..];
      assert OwnerAndName(s, s[..i], s[i + 1..]);
    }
    if owner, name :| OwnerAndName(s, owner, name) {
      var i := |owner|;
      assert s[i] == '/' && s[..i] == owner && s[i + 1..] == name;
      forall k | 0 <= k < |owner| ensures NameChar(owner[k]) { assert owner[k] in owner; }
      forall k | 0 <= k < |name| ensures NameChar(name[k]) { assert name[k] in name; }
    }
  }

  predicate Named(s: Option<string>) {
    s.Some? && !Blank(s.value)
  }

  function Normalize(o: Observation, repo: string, sha: string): Result<Observation, Refusal> {
    if o.NotAnObject? then Err(MalformedObservation)
    else if o.repo != Some(repo) || o.sha != Some(sha) then Err(ForeignSubject)
    else if !Named(o.sensor) then Err(MissingSensor)
    else if !(o.result.Some? && o.result.value in RESULTS) then Err(InvalidResult)
    else if !Named(o.evidenceId) then Err(MissingEvidenceId)
    else if o.recordedAt == Some(NotText) then Err(InvalidRecordedAt)
    else Ok(o.(sensor := Some(Strip(o.sensor.value)), evidenceId := Some(Strip(o.evidenceId.value)),
               details := Some(if o.details.Some? then o.details.value else Empty)))
  }

  // What normalising does, on the fields of the two observations.

  ghost predicate HasText(t: Option<string>) {
    t.Some? && !AllSpace(t.value)
  }

  ghost predicate HasResult(o: Observation) {
    o.Observation? && o.result.Some? && o.result.value in ["FAIL", "PASS", "PENDING", "UNKNOWN", "UNSUPPORTED"]
  }

  /** The observation can be bound to the commit of the repository. */
  ghost predicate Bindable(o: Observation, repo: string, sha: string) {
    match o
    case NotAnObject => false
    case Observation(r, s, sensor, result, evidenceId, recordedAt, _) =>
      r == Some(repo) && s == Some(sha) && HasText(sensor) && HasResult(o) && HasText(evidenceId) &&
      recordedAt != Some(NotText)
  }

  /** Bound, n says what o says, with its names stripped and its details filled in. */
  ghost predicate BoundAs(o: Observation, repo: string, sha: string, n: Observation) {
    match n
    case NotAnObject => false
    case Observation(r, s, sensor, result, evidenceId, recordedAt, details) =>
      && Bindable(o, repo, sha) && r == Some(repo) && s == Some(sha) && result == o.result
      && sensor == Some(Strip(o.sensor.value)) && evidenceId == Some(Strip(o.evidenceId.value))
      && recordedAt == o.recordedAt && details == Some(if o.details.Some? then o.details.value else Empty)
  }

  /** The first thing that keeps an observation from being bound. */
  ghost predicate UnboundFor(o: Observation, repo: string, sha: string, error: Refusal) {
    match o
    case NotAnObject => error == MalformedObservation
    case Observation(r, s, sensor, result, evidenceId, recordedAt, _) =>
      if r != Some(repo) || s != Some(sha) then error == ForeignSubject
      else if !HasText(sensor) then error == MissingSensor
      else if !HasResult(o) then error == InvalidResult
      else if !HasText(evidenceId) then error == MissingEvidenceId
      else recordedAt == Some(NotText) && error == InvalidRecordedAt
  }

  lemma NamedExactly(t: Option<string>)
    ensures Named(t) <==> HasText(t)
  {
    if t.Some? { BlankExactly(t.value); }
  }

  lemma NormalizeExactly(o: Observation, repo: string, sha: string)
    ensures Normalize(o, repo, sha).Ok? <==> Bindable(o, repo, sha)
    ensures Normalize(o, repo, sha).Ok? ==> BoundAs(o, repo, sha, Normalize(o, repo, sha).value)
    ensures Normalize(o, repo, sha).Err? ==> UnboundFor(o, repo, sha, Normalize(o, repo, sha).error)
  {
    if o.Observation? {
      NamedExactly(o.sensor);
      NamedExactly(o.evidenceId);
    }
  }

  lemma BoundOnce(o: Observation, repo: string, sha: string, a: Observation, b: Observation)
    requires BoundAs(o, repo, sha, a) && BoundAs(o, repo, sha, b)
    ensures a == b
  {
  }

  lemma StrippedHasText(t: string)
    requires !AllSpace(t)
    ensures !AllSpace(Strip(t)) && Strip(Strip(t)) == Strip(t)
  {
    BlankExactly(t);
    BlankExactly(Strip(t));
    StripIdempotent(t);
  }

  /** Normalising twice is normalising once. */
  lemma NormalizeIdempotent(o: Observation, repo: string, sha: string, n: Observation)
    requires BoundAs(o, repo, sha, n)
    ensures BoundAs(n, repo, sha, n)
  {
    StrippedHasText(o.sensor.value);
    StrippedHasText(o.evidenceId.value);
  }

  /** A normalised observation: every field it needs is there. */
  ghost predicate Normal(o: Observation) {
    o.Observation? && o.sensor.Some? && o.evidenceId.Some? && HasResult(o)
  }

  /** Filed under the same sensor and the same evidence. */
  ghost predicate SameKey(a: Observation, b: Observation) {
    match a
    case Observation(_, _, sensor, _, evidenceId, _, _) =>
      b.Observation? && b.sensor == sensor && b.evidenceId == evidenceId
    case NotAnObject => false
  }

  /** What an observation is filed under: its sensor and its evidence. */
  function KeyOf(o: Observation): Option<(Option<string>, Option<string>)> {
    match o
    case Observation(_, _, sensor, _, evidenceId, _, _) => Some((sensor, evidenceId))
    case NotAnObject => None
  }

  function Field(s: Option<string>): string {
    if s.Some? then s.value else ""
  }

  function SortKey(o: Observation): seq<string> {
    if o.NotAnObject? then [] else [Field(o.sensor), Field(o.evidenceId), Field(o.result)]
  }

  predicate Precedes(a: Observation, b: Observation) {
    TupleBefore(SortKey(a), SortKey(b))
  }

  lemma PrecedesIsStrict()
    ensures StrictOrder(Precedes)
  {
    TupleBeforeIsStrictTotal();
  }

  // ----- What a manifest says -----

  /** n is the normalised form of one of the presented observations. */
  ghost predicate Observed(obs: seq<Observation>, repo: string, sha: string, n: Observation) {
    exists o :: o in obs && BoundAs(o, repo, sha, n)
  }

  /** Observations that can be bound to the subject, no two of which contradict each other. */
  ghost predicate Acceptable(repo: string, sha: string, obs: seq<Observation>) {
    && IsRepository(repo) && IsSha40(sha)
    && (forall o :: o in obs ==> Bindable(o, repo, sha))
    && forall a, b :: Observed(obs, repo, sha, a) && Observed(obs, repo, sha, b) && SameKey(a, b) ==> a == b
  }

  function CountOf(obs: seq<Observation>, result: string): nat {
    if obs == [] then 0
    else CountOf(obs[..|obs| - 1], result) +
         if obs[|obs| - 1].Observation? && obs[|obs| - 1].result == Some(result) then 1 else 0
  }

  function Counts(obs: seq<Observation>): map<string, nat> {
    map r | r in RESULTS :: CountOf(obs, r)
  }

  function Standing(obs: seq<Observation>): (string, string) {
    if obs == [] then ("UNKNOWN", "NO_EVIDENCE")
    else if CountOf(obs, "FAIL") > 0 then ("BUILD_BROKEN", "OBSERVED_FAILURE")
    else if CountOf(obs, "PENDING") > 0 || CountOf(obs, "UNKNOWN") > 0 then ("UNKNOWN", "INCOMPLETE_EVIDENCE")
    else if CountOf(obs, "UNSUPPORTED") > 0 && CountOf(obs, "PASS") == 0 then ("UNSUPPORTED", "NO_SUPPORTED_SENSOR")
    else ("PARTIAL_ALIVE", "MEASUREMENT_EVIDENCE_ONLY")
  }

  function Sealed(repo: string, sha: string, unique: seq<Observation>): Manifest {
    var (standing, reason) := Standing(unique);
    var body := Body("chatman.measure.exact-subject-evidence-manifest/v1", repo, sha, unique, Counts(unique),
                     standing, reason, "SELECT_MEASURE_ONLY", "PARTIAL_ALIVE");
    Manifest(body, Some(Receipt("sha256", Some(OfBody(body)))))
  }

  // What that comes to, on the observations themselves.

  ghost predicate Shows(obs: seq<Observation>, result: string) {
    exists o :: o in obs && o.Observation? && o.result == Some(result)
  }

  ghost predicate ShowsOnly(obs: seq<Observation>, result: string) {
    forall o :: o in obs ==> o.Observation? && o.result == Some(result)
  }

  /** Where among the observations the result is found. */
  ghost function Places(obs: seq<Observation>, result: string): set<nat> {
    set i: nat | i < |obs| && obs[i].Observation? && obs[i].result == Some(result)
  }

  ghost predicate CountsRead(obs: seq<Observation>, counts: map<string, nat>) {
    && counts.Keys == {"FAIL", "PASS", "PENDING", "UNKNOWN", "UNSUPPORTED"}
    && forall r :: r in counts ==> counts[r] == |Places(obs, r)|
  }

  /** The standing: a failure breaks the build; otherwise nothing is known without evidence or
      while some is outstanding; a subject that no sensor supports is unsupported. */
  ghost predicate StandingReads(obs: seq<Observation>, standing: string) {
    var reading :=
      && (standing == "BUILD_BROKEN" <==> Shows(obs, "FAIL"))
      && (standing == "UNKNOWN" <==>
            !Shows(obs, "FAIL") && (obs == [] || Shows(obs, "PENDING") || Shows(obs, "UNKNOWN")))
      && (standing == "UNSUPPORTED" <==> obs != [] && ShowsOnly(obs, "UNSUPPORTED"))
      && standing in {"BUILD_BROKEN", "UNKNOWN", "UNSUPPORTED", "PARTIAL_ALIVE"};
    reading
  }

  ghost predicate ReasonReads(obs: seq<Observation>, standing: string, reason: string) {
    var reading :=
      && (standing == "BUILD_BROKEN" ==> reason == "OBSERVED_FAILURE")
      && (standing == "UNKNOWN" ==> reason == if obs == [] then "NO_EVIDENCE" else "INCOMPLETE_EVIDENCE")
      && (standing == "UNSUPPORTED" ==> reason == "NO_SUPPORTED_SENSOR")
      && (standing == "PARTIAL_ALIVE" ==> reason == "MEASUREMENT_EVIDENCE_ONLY");
    reading
  }

  lemma {:induction false} CountsPlaces(obs: seq<Observation>, result: string)
    ensures CountOf(obs, result) == |Places(obs, result)|
    ensures CountOf(obs, result) > 0 <==> Shows(obs, result)
  {
    if obs == [] {
      assert Places(obs, result) == {};
    } else {
      var k := |obs| - 1;
      CountsPlaces(obs[..k], result);
      var last := if obs[k].Observation? && obs[k].result == Some(result) then {k} else {};
      assert Places(obs, result) == Places(obs[..k], result) + last;
      assert obs == obs[..k] + [obs[k]];
    }
  }

  lemma StandingExactly(obs: seq<Observation>)
    requires forall o :: o in obs ==> HasResult(o)
    ensures StandingReads(obs, Standing(obs).0) && ReasonReads(obs, Standing(obs).0, Standing(obs).1)
  {
    CountsPlaces(obs, "FAIL");
    CountsPlaces(obs, "PENDING");
    CountsPlaces(obs, "UNKNOWN");
    CountsPlaces(obs, "UNSUPPORTED");
    CountsPlaces(obs, "PASS");
    if obs != [] { assert obs[0] in obs; }
  }

  lemma CountsExactly(obs: seq<Observation>)
    ensures CountsRead(obs, Counts(obs))
  {
    forall r | r in Counts(obs) ensures Counts(obs)[r] == |Places(obs, r)| { CountsPlaces(obs, r); }
    forall r ensures r in Counts(obs) <==> r in {"FAIL", "PASS", "PENDING", "UNKNOWN", "UNSUPPORTED"} {
      assert r in Counts(obs) <==> r in RESULTS;
    }
  }

  /** By sensor, and among those of one sensor by evidence. */
  ghost predicate Sooner(a: Observation, b: Observation) {
    Normal(a) && Normal(b) &&
    (Before(a.sensor.value, b.sensor.value) ||
     (a.sensor == b.sensor && Before(a.evidenceId.value, b.evidenceId.value)))
  }

  ghost predicate InOrder(obs: seq<Observation>) {
    forall i, j :: 0 <= i < j < |obs| ==> Sooner(obs[i], obs[j])
  }

  /** The listing of the normalised observations, each once, in order. */
  ghost predicate ListsObserved(unique: seq<Observation>, repo: string, sha: string, obs: seq<Observation>) {
    InOrder(unique) && forall n :: n in unique <==> Observed(obs, repo, sha, n)
  }

  /** The manifest is about the subject, what it counts and concludes is what its observations
      show, it claims no more authority than to measure, and it is sealed. */
  ghost predicate ManifestReads(repo: string, sha: string, m: Manifest) {
    match m
    case Manifest(Body(schema, r, s, obs, counts, standing, reason, authority, ceiling), receipt) =>
      && schema == "chatman.measure.exact-subject-evidence-manifest/v1" && r == repo && s == sha
      && CountsRead(obs, counts) && StandingReads(obs, standing) && ReasonReads(obs, standing, reason)
      && authority == "SELECT_MEASURE_ONLY" && ceiling == "PARTIAL_ALIVE"
      && receipt == Some(Receipt("sha256", Some(OfBody(m.body))))
  }

  lemma SealedReads(repo: string, sha: string, obs: seq<Observation>)
    requires forall o :: o in obs ==> HasResult(o)
    ensures ManifestReads(repo, sha, Sealed(repo, sha, obs)) && Sealed(repo, sha, obs).body.observations == obs
  {
    StandingExactly(obs);
    CountsExactly(obs);
  }

  lemma OneReading(repo: string, sha: string, a: Manifest, b: Manifest)
    requires ManifestReads(repo, sha, a) && ManifestReads(repo, sha, b) && a.body.observations == b.body.observations
    ensures a == b
  {
    assert a.body.counts == b.body.counts;
  }

  ghost predicate ManifestOf(repo: string, sha: string, obs: seq<Observation>, m: Manifest) {
    Acceptable(repo, sha, obs) && ListsObserved(m.body.observations, repo, sha, obs) && ManifestReads(repo, sha, m)
  }

  // ----- Manufacturing -----

  /** The normalised observations seen so far, no two with the same key. */
  ghost predicate Distinct(seen: seq<Observation>) {
    && (forall i :: 0 <= i < |seen| ==> Normal(seen[i]))
    && (forall i, j :: 0 <= i < j < |seen| ==> !SameKey(seen[i], seen[j]))
  }

  lemma KeyTellsApart(a: Observation, b: Observation)
    requires Normal(a) && Normal(b)
    ensures SortKey(a) == SortKey(b) ==> SameKey(a, b)
  {
    assert SortKey(a)[0] == a.sensor.value && SortKey(a)[1] == a.evidenceId.value;
    assert SortKey(b)[0] == b.sensor.value && SortKey(b)[1] == b.evidenceId.value;
  }

  lemma OrderExactly(seen: seq<Observation>)
    requires Distinct(seen)
    ensures StrictlySorted(Precedes, seen) <==> InOrder(seen)
  {
    forall i, j | 0 <= i < j < |seen| ensures Precedes(seen[i], seen[j]) <==> Sooner(seen[i], seen[j]) {
      PrecedesExactly(seen[i], seen[j]);
    }
  }

  lemma PrecedesExactly(a: Observation, b: Observation)
    requires Normal(a) && Normal(b) && !SameKey(a, b)
    ensures Precedes(a, b) <==> Sooner(a, b)
  {
    var s, t := SortKey(a), SortKey(b);
    LexIrreflexive(CharBefore, a.sensor.value);
    assert s[0] == a.sensor.value && t[0] == b.sensor.value;
    assert s[1..][0] == a.evidenceId.value && t[1..][0] == b.evidenceId.value;
    if s[0] == t[0] {
      assert Lex(Before, s, t) == Lex(Before, s[1..], t[1..]);
    } else {
      assert Lex(Before, s, t) == Before(s[0], t[0]);
    }
  }

  /** Sorted, the distinct observations are in order. */
  lemma UniqueInOrder(seen: seq<Observation>, unique: seq<Observation>)
    requires Distinct(seen) && StrictlySorted(Precedes, unique) && forall n :: n in unique ==> n in seen
    ensures InOrder(unique) && forall n :: n in unique ==> Normal(n)
  {
    PrecedesIsStrict();
    forall n | n in unique ensures Normal(n) { }
    forall i, j | 0 <= i < j < |unique| ensures !SameKey(unique[i], unique[j]) {
      assert unique[i] in unique && unique[j] in unique;
      var x :| 0 <= x < |seen| && seen[x] == unique[i];
      var y :| 0 <= y < |seen| && seen[y] == unique[j];
      assert Precedes(seen[x], seen[y]);
      assert x != y;
    }
    OrderExactly(unique);
  }

  lemma DistinctComparable(seen: seq<Observation>)
    requires Distinct(seen)
    ensures Comparable(Precedes, seen)
  {
    TupleBeforeIsStrictTotal();
    forall i, j | 0 <= i < j < |seen| ensures Precedes(seen[i], seen[j]) || Precedes(seen[j], seen[i]) {
      KeyTellsApart(seen[i], seen[j]);
    }
  }

  method FindKey(seen: seq<Observation>, o: Observation) returns (prior: Option<Observation>)
    ensures prior.Some? ==> prior.value in seen && SameKey(prior.value, o)
    ensures prior.None? ==> forall s :: s in seen ==> !SameKey(s, o)
  {
    for i := 0 to |seen|
      invariant forall k :: 0 <= k < i ==> !SameKey(seen[k], o)
    {
      if KeyOf(o).Some? && KeyOf(seen[i]) == KeyOf(o) {
        return Some(seen[i]);
      }
    }
    return None;
  }

  /** The first observation that cannot be bound to the subject, and why. */
  ghost predicate ObservationRefused(obs: seq<Observation>, repo: string, sha: string, i: nat, error: Refusal) {
    i < |obs| && UnboundFor(obs[i], repo, sha, error) && forall k :: 0 <= k < i ==> Bindable(obs[k], repo, sha)
  }

  ghost predicate AllBound(obs: seq<Observation>, repo: string, sha: string) {
    forall o :: o in obs ==> Bindable(o, repo, sha)
  }

  /** The true ground of each refusal to manufacture. */
  ghost predicate ManufactureRefused(repo: string, sha: string, obs: seq<Observation>, error: Refusal) {
    var grounded :=
      if !IsRepository(repo) then error == InvalidRepository
      else if !IsSha40(sha) then error == InvalidSubjectSha
      else if AllBound(obs, repo, sha) then error == ConflictingDuplicate
      else exists i: nat :: ObservationRefused(obs, repo, sha, i, error);
    grounded
  }

  method NormalizeAll(obs: seq<Observation>, repo: string, sha: string) returns (r: Result<seq<Observation>, Refusal>)
    ensures r.Ok? <==> AllBound(obs, repo, sha)
    ensures r.Err? ==> exists i: nat :: ObservationRefused(obs, repo, sha, i, r.error)
    ensures r.Ok? ==> |r.value| == |obs| && forall i :: 0 <= i < |obs| ==>
        BoundAs(obs[i], repo, sha, r.value[i])
  {
    var normal: seq<Observation> := [];
    for i := 0 to |obs|
      invariant |normal| == i && forall k :: 0 <= k < i ==> BoundAs(obs[k], repo, sha, normal[k])
    {
      var n := Normalize(obs[i], repo, sha);
      NormalizeExactly(obs[i], repo, sha);
      if n.Err? {
        assert obs[i] in obs;
        assert ObservationRefused(obs, repo, sha, i, n.error);
        return Err(n.error);
      }
      normal := normal + [n.value];
    }
    return Ok(normal);
  }

  /** Keeps one observation of each key, and refuses two that differ. */
  method Merge(normal: seq<Observation>) returns (r: Result<seq<Observation>, Refusal>)
    requires forall n :: n in normal ==> Normal(n)
    ensures r.Ok? <==> forall a, b :: a in normal && b in normal && SameKey(a, b) ==> a == b
    ensures r.Ok? ==> Distinct(r.value) && forall n :: n in r.value <==> n in normal
    ensures r.Err? ==> r.error == ConflictingDuplicate
  {
    var seen: seq<Observation> := [];
    for i := 0 to |normal|
      invariant Distinct(seen) && forall n :: n in seen <==> n in normal[..i]
    {
      assert normal[..i + 1] == normal[..i] + [normal[i]];
      var prior := FindKey(seen, normal[i]);
      if prior.Some? {
        if prior.value != normal[i] {
          assert prior.value in normal && normal[i] in normal;
          return Err(ConflictingDuplicate);
        }
      } else {
        assert normal[i] in normal;
        assert forall k :: 0 <= k < |seen| ==> seen[k] in seen;
        seen := seen + [normal[i]];
      }
    }
    assert normal[..|normal|] == normal;
    forall a, b | a in normal && b in normal && SameKey(a, b) ensures a == b {
      var i :| 0 <= i < |seen| && seen[i] == a;
      var j :| 0 <= j < |seen| && seen[j] == b;
    }
    return Ok(seen);
  }

  lemma NormalListing(obs: seq<Observation>, repo: string, sha: string, normal: seq<Observation>)
    requires |normal| == |obs| && forall i :: 0 <= i < |obs| ==> BoundAs(obs[i], repo, sha, normal[i])
    ensures forall n :: n in normal <==> Observed(obs, repo, sha, n)
    ensures forall n :: n in normal ==> Normal(n)
  {
    forall n ensures n in normal <==> Observed(obs, repo, sha, n) {
      if n in normal {
        var i :| 0 <= i < |normal| && normal[i] == n;
        assert obs[i] in obs && BoundAs(obs[i], repo, sha, n);
      }
      if Observed(obs, repo, sha, n) {
        var o :| o in obs && BoundAs(o, repo, sha, n);
        var i :| 0 <= i < |obs| && obs[i] == o;
      }
    }
  }

  method Manufacture(repo: string, sha: string, obs: seq<Observation>) returns (r: Result<Manifest, Refusal>)
    ensures r.Ok? <==> Acceptable(repo, sha, obs)
    ensures r.Ok? ==> ManifestOf(repo, sha, obs, r.value)
    ensures r.Err? ==> ManufactureRefused(repo, sha, obs, r.error)
  {
    RepositoryExactly(repo);
    if !RepositoryName(repo) {
      return Err(InvalidRepository);
    }
    if !IsSha40(sha) {
      return Err(InvalidSubjectSha);
    }
    var normal :- NormalizeAll(obs, repo, sha);
    NormalListing(obs, repo, sha, normal);
    var seen :- Merge(normal);
    DistinctComparable(seen);
    PrecedesIsStrict();
    SortBySorts(Precedes, seen);
    var unique := SortBy(Precedes, seen);
    UniqueInOrder(seen, unique);
    SealedReads(repo, sha, unique);
    return Ok(Sealed(repo, sha, unique));
  }

  // ----- Only the set of observations matters -----

  lemma InOrderDistinct(s: seq<Observation>)
    requires InOrder(s) && forall n :: n in s ==> Normal(n)
    ensures Distinct(s)
  {
    forall i, j | 0 <= i < j < |s| ensures !SameKey(s[i], s[j]) {
      assert s[i] in s && Sooner(s[i], s[j]);
      LexIrreflexive(CharBefore, s[i].sensor.value);
      LexIrreflexive(CharBefore, s[i].evidenceId.value);
    }
  }

  lemma ListingUnique(s: seq<Observation>, t: seq<Observation>)
    requires InOrder(s) && InOrder(t) && forall n :: n in s <==> n in t
    requires forall n :: n in s ==> Normal(n)
    ensures s == t
  {
    InOrderDistinct(s);
    InOrderDistinct(t);
    OrderExactly(s);
    OrderExactly(t);
    PrecedesIsStrict();
    SortedCardinality(Precedes, s);
    SortedCardinality(Precedes, t);
    assert (set n | n in s) == (set n | n in t);
    StrictlySortedUnique(Precedes, s, t);
  }

  lemma SameObservedSameManifest(repo: string, sha: string, obs: seq<Observation>, other: seq<Observation>,
      a: Manifest, b: Manifest)
    requires ManifestOf(repo, sha, obs, a) && ManifestOf(repo, sha, other, b)
    requires forall n :: Observed(obs, repo, sha, n) <==> Observed(other, repo, sha, n)
    ensures a == b
  {
    forall n | n in a.body.observations ensures Normal(n) { assert Observed(obs, repo, sha, n); }
    ListingUnique(a.body.observations, b.body.observations);
    OneReading(repo, sha, a, b);
  }

  /** Observations that normalise to the same set give the same manifest: their order, their
      repetition and the white space around their names leave no trace. */
  lemma ManifestIgnoresPresentation(repo: string, sha: string, obs: seq<Observation>, other: seq<Observation>,
      m: Manifest)
    requires ManifestOf(repo, sha, obs, m)
    requires forall o :: o in other ==> Bindable(o, repo, sha)
    requires forall n :: Observed(obs, repo, sha, n) <==> Observed(other, repo, sha, n)
    ensures Acceptable(repo, sha, other) && ManifestOf(repo, sha, other, m)
    ensures forall m' :: ManifestOf(repo, sha, other, m') ==> m' == m
  {
    forall m' | ManifestOf(repo, sha, other, m') ensures m' == m {
      SameObservedSameManifest(repo, sha, obs, other, m, m');
    }
  }

  /** In particular any rearrangement or repetition of the observations. */
  lemma PermutedOrRepeated(repo: string, sha: string, obs: seq<Observation>, other: seq<Observation>)
    requires forall o :: o in obs <==> o in other
    ensures Acceptable(repo, sha, obs) <==> Acceptable(repo, sha, other)
    ensures forall m :: ManifestOf(repo, sha, obs, m) <==> ManifestOf(repo, sha, other, m)
  {
    forall n ensures Observed(obs, repo, sha, n) <==> Observed(other, repo, sha, n) {
      if o :| o in obs && BoundAs(o, repo, sha, n) { assert o in other; }
      if o :| o in other && BoundAs(o, repo, sha, n) { assert o in obs; }
    }
  }

  // ----- Verifying -----

  /** A manufactured manifest, given its own observations, manufactures itself. */
  lemma ManifestIsFixedPoint(repo: string, sha: string, obs: seq<Observation>, m: Manifest)
    requires ManifestOf(repo, sha, obs, m)
    ensures ManifestOf(repo, sha, m.body.observations, m)
  {
    var own := m.body.observations;
    forall n | n in own ensures BoundAs(n, repo, sha, n) {
      var o :| o in obs && BoundAs(o, repo, sha, n);
      NormalizeIdempotent(o, repo, sha, n);
    }
    forall n ensures Observed(obs, repo, sha, n) <==> Observed(own, repo, sha, n) {
      if Observed(own, repo, sha, n) {
        var o :| o in own && BoundAs(o, repo, sha, n);
        BoundOnce(o, repo, sha, n, o);
      }
      if n in own { assert BoundAs(n, repo, sha, n); }
    }
    ManifestIgnoresPresentation(repo, sha, obs, own, m);
  }

  /** A manifest made from anything is made from what it says itself, and nothing else is. */
  lemma MadeFromItself(m: Manifest)
    ensures (exists repo, sha, obs :: ManifestOf(repo, sha, obs, m)) <==>
            ManifestOf(m.body.repo, m.body.sha, m.body.observations, m)
  {
    if repo, sha, obs :| ManifestOf(repo, sha, obs, m) {
      ManifestIsFixedPoint(repo, sha, obs, m);
      assert ManifestReads(repo, sha, m);
    }
  }

  lemma MadeOnce(repo: string, sha: string, obs: seq<Observation>, a: Manifest, b: Manifest)
    requires ManifestOf(repo, sha, obs, a) && ManifestOf(repo, sha, obs, b)
    ensures a == b
  {
    forall o | o in obs ensures Bindable(o, repo, sha) { }
    ManifestIgnoresPresentation(repo, sha, obs, obs, a);
  }

  lemma SealedProperly(repo: string, sha: string, m: Manifest)
    requires ManifestReads(repo, sha, m)
    ensures m.receipt == Some(Receipt("sha256", Some(OfBody(m.body))))
  {
  }

  /** The verifier accepts exactly what the manufacturer can produce, from whatever input. */
  method Verify(m: Manifest) returns (refused: Option<Refusal>)
    ensures refused.None? <==> exists repo, sha, obs :: ManifestOf(repo, sha, obs, m)
  {
    MadeFromItself(m);
    ghost var made := ManifestOf(m.body.repo, m.body.sha, m.body.observations, m);
    if made { SealedProperly(m.body.repo, m.body.sha, m); }
    if m.receipt.None? || m.receipt.value.algorithm != "sha256" {
      return Some(InvalidReceipt);
    }
    if m.receipt.value.digest.None? ||
       (m.receipt.value.digest.value.OtherText? && |m.receipt.value.digest.value.text| != 64)
    {
      return Some(InvalidReceipt);
    }
    if m.receipt.value.digest.value != OfBody(m.body) {
      return Some(ReceiptMismatch);
    }
    var replay := Manufacture(m.body.repo, m.body.sha, m.body.observations);
    if replay.Err? {
      return Some(replay.error);
    }
    if made { MadeOnce(m.body.repo, m.body.sha, m.body.observations, m, replay.value); }
    if replay.value != m {
      return Some(ReplayMismatch);
    }
    return None;
  }
}
