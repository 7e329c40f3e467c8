/** The SELECT/CONSTRUCT half of the consequence court: from a request to a prepared intent.
    Digests are free constructors over what the code digests; a sorted listing of distinct
    texts is the set it lists. */
module Preparation {
  import opened Prelude
  import opened Text
  import opened Ordering

  datatype Candidate = Candidate(id: string, consequence: string, reversible: bool, costUnits: int,
                                 admitted: bool, constraintsSatisfied: bool, falsified: bool, evidence: seq<string>)

  datatype Request = Request(subject: string, intent: string, observations: seq<string>, candidates: seq<Candidate>,
                             selectedCandidate: string, idempotencyKey: string, expectedPrecondition: string,
                             expectedPostcondition: string, verificationPassed: bool, verificationEvidence: seq<string>)

  datatype Exclusion = Irreversible | NotAdmitted | Constraint | Falsified

  datatype Digest =
    | OfObservation(subject: string, facts: set<string>)
    | OfArtifact(forSubject: string, oStar: Digest, candidate: string, consequence: string, evidence: seq<string>)
    | OfVerification(artifact: Digest, proofs: set<string>)
    | OfIntent(intent: IntentBody)
    | Foreign(text: string)

  datatype IntentBody = IntentBody(component: string, sha: string, consequence: string, oStar: Digest,
                                   frontier: seq<string>, excluded: map<string, Exclusion>, artifact: Digest,
                                   verification: Digest, expectedPrecondition: string, expectedPostcondition: string)

  datatype Intent = Intent(body: IntentBody, digest: Digest)

  datatype Prepared = Prepared(request: Request, oStar: Digest, frontier: seq<Candidate>,
                               excluded: map<string, Exclusion>, selected: Candidate, artifact: Digest,
                               verification: Digest, intent: Intent)

  datatype Refusal =
    | InvalidSubject | EmptyIntent | EmptyObservation
    | InvalidCandidateId | EmptyConsequence(id: string) | NegativeCost(id: string) | DuplicateCandidate(id: string)
    | NoLawfulFrontier | SelectionOutsideFrontier | VerificationFailed | VerificationEvidenceMissing

  // ----- What a request says -----

  /** The facts behind a list of notes: stripped, without blanks and repetitions. */
  function Facts(notes: seq<string>): set<string> {
    set o | o in notes && !Blank(o) :: Strip(o)
  }

  /** A fact is what is left of some note without the white space around it. */
  lemma FactsExactly(notes: seq<string>, f: string)
    ensures f in Facts(notes) <==> Trimmed(f) && exists w, v :: AllSpace(w) && AllSpace(v) && w + f + v in notes
  {
    if f in Facts(notes) {
      var o :| o in notes && !Blank(o) && Strip(o) == f;
      var w, v := StripTrims(o);
      assert w + f + v in notes;
    }
    if Trimmed(f) {
      forall w, v | AllSpace(w) && AllSpace(v) && w + f + v in notes ensures f in Facts(notes) {
        TrimmedStrips(w, f, v);
      }
    }
  }

  /** There are facts when some note is not all white space. */
  ghost predicate SomeFact(notes: seq<string>) {
    exists o :: o in notes && !AllSpace(o)
  }

  lemma SomeFactExactly(notes: seq<string>)
    ensures Facts(notes) != {} <==> SomeFact(notes)
  {
    forall o | o in notes ensures Blank(o) <==> AllSpace(o) { BlankExactly(o); }
    if o :| o in notes && !AllSpace(o) { assert Strip(o) in Facts(notes); }
    if f :| f in Facts(notes) { var o :| o in notes && !Blank(o) && Strip(o) == f; }
  }

  const PREFIX := "candidate:"

  predicate NamedProperly(id: string) {
    |id| > |PREFIX| && id[..|PREFIX|] == PREFIX
  }

  function Unfit(c: Candidate): Option<Refusal> {
    if !NamedProperly(c.id) then Some(InvalidCandidateId)
    else if Blank(c.consequence) then Some(EmptyConsequence(c.id))
    else if c.costUnits < 0 then Some(NegativeCost(c.id))
    else None
  }

  function WhyExcluded(c: Candidate): Option<Exclusion> {
    if !c.reversible then Some(Irreversible)
    else if !c.admitted then Some(NotAdmitted)
    else if !c.constraintsSatisfied then Some(Constraint)
    else if c.falsified then Some(Falsified)
    else None
  }

  predicate Cheaper(a: Candidate, b: Candidate) {
    a.costUnits < b.costUnits || (a.costUnits == b.costUnits && Before(a.id, b.id))
  }

  // What these say of a candidate, on its fields.

  ghost predicate WellFormed(c: Candidate) {
    |c.id| > 10 && c.id[..10] == "candidate:" && !AllSpace(c.consequence) && c.costUnits >= 0
  }

  ghost predicate Lawful(c: Candidate) {
    c.reversible && c.admitted && c.constraintsSatisfied && !c.falsified
  }

  /** The first thing wrong with a candidate that cannot be taken. */
  ghost predicate UnfitFor(c: Candidate, e: Refusal) {
    var named := |c.id| > 10 && c.id[..10] == "candidate:";
    match e
    case InvalidCandidateId => !named
    case EmptyConsequence(id) => id == c.id && named && AllSpace(c.consequence)
    case NegativeCost(id) => id == c.id && named && !AllSpace(c.consequence) && c.costUnits < 0
    case _ => false
  }

  /** The first ground on which a candidate is kept off the frontier. */
  ghost predicate ExcludedFor(c: Candidate, e: Exclusion) {
    match e
    case Irreversible => !c.reversible
    case NotAdmitted => c.reversible && !c.admitted
    case Constraint => c.reversible && c.admitted && !c.constraintsSatisfied
    case Falsified => c.reversible && c.admitted && c.constraintsSatisfied && c.falsified
  }

  lemma UnfitExactly(c: Candidate)
    ensures Unfit(c).None? <==> WellFormed(c)
    ensures Unfit(c).Some? ==> UnfitFor(c, Unfit(c).value)
  {
    BlankExactly(c.consequence);
  }

  lemma ExcludedExactly(c: Candidate)
    ensures WhyExcluded(c).None? <==> Lawful(c)
    ensures WhyExcluded(c).Some? ==> ExcludedFor(c, WhyExcluded(c).value)
  {
  }

  ghost predicate SoundCandidates(cs: seq<Candidate>) {
    && (forall c :: c in cs ==> WellFormed(c))
    && forall i, j :: 0 <= i < j < |cs| ==> cs[i].id != cs[j].id
  }

  /** By cost, and among equal costs by identifier. */
  ghost predicate CheapestFirst(frontier: seq<Candidate>) {
    forall i, j :: 0 <= i < j < |frontier| ==>
      frontier[i].costUnits < frontier[j].costUnits ||
      (frontier[i].costUnits == frontier[j].costUnits && Before(frontier[i].id, frontier[j].id))
  }

  /** Each candidate is in exactly one place: on the frontier, which is in order of cost, or
      among the exclusions, with the first reason that applies. */
  ghost predicate Splits(cs: seq<Candidate>, frontier: seq<Candidate>, excluded: map<string, Exclusion>) {
    && CheapestFirst(frontier)
    && (forall c :: c in frontier <==> c in cs && Lawful(c))
    && (forall k :: k in excluded <==> exists c :: c in cs && c.id == k && !Lawful(c))
    && (forall c :: c in cs && !Lawful(c) ==> c.id in excluded && ExcludedFor(c, excluded[c.id]))
  }

  lemma CheaperIsStrict()
    ensures StrictOrder(Cheaper)
  {
    forall a ensures !Cheaper(a, a) { LexIrreflexive(CharBefore, a.id); }
    forall a, b, c | Cheaper(a, b) && Cheaper(b, c) ensures Cheaper(a, c) {
      if Before(a.id, b.id) && Before(b.id, c.id) { LexTransitive(CharBefore, a.id, b.id, c.id); }
    }
  }

  lemma ComparableByCost(cs: seq<Candidate>)
    requires forall i, j :: 0 <= i < j < |cs| ==> cs[i].id != cs[j].id
    ensures Comparable(Cheaper, cs)
  {
    forall i, j | 0 <= i < j < |cs| ensures Cheaper(cs[i], cs[j]) || Cheaper(cs[j], cs[i]) {
      LexTotal(CharBefore, cs[i].id, cs[j].id);
    }
  }

  /** The same split before sorting, as the loop builds it up. */
  ghost predicate Sorts(cs: seq<Candidate>, lawful: seq<Candidate>, excluded: map<string, Exclusion>) {
    && (forall x, y :: 0 <= x < y < |lawful| ==> lawful[x].id != lawful[y].id)
    && (forall c :: c in lawful <==> c in cs && Lawful(c))
    && (forall k :: k in excluded <==> exists c :: c in cs && c.id == k && !Lawful(c))
    && (forall c :: c in cs && !Lawful(c) ==> c.id in excluded && ExcludedFor(c, excluded[c.id]))
  }

  lemma SortsLawful(cs: seq<Candidate>, lawful: seq<Candidate>, excluded: map<string, Exclusion>, c: Candidate)
    requires Sorts(cs, lawful, excluded) && Lawful(c) && forall d :: d in cs ==> d.id != c.id
    ensures Sorts(cs + [c], lawful + [c], excluded)
  {
    assert forall d :: d in cs + [c] <==> d in cs || d == c;
    forall x | 0 <= x < |lawful| ensures lawful[x].id != c.id { assert lawful[x] in lawful; }
  }

  lemma SortsExcluded(cs: seq<Candidate>, lawful: seq<Candidate>, excluded: map<string, Exclusion>, c: Candidate,
      why: Exclusion)
    requires Sorts(cs, lawful, excluded) && !Lawful(c) && ExcludedFor(c, why) && forall d :: d in cs ==> d.id != c.id
    ensures Sorts(cs + [c], lawful, excluded[c.id := why])
  {
    var more, wider := cs + [c], excluded[c.id := why];
    assert forall d :: d in more <==> d in cs || d == c;
    forall k ensures k in wider <==> exists d :: d in more && d.id == k && !Lawful(d) {
      if k == c.id { assert c in more && c.id == k && !Lawful(c); }
    }
  }

  datatype Judging = Judging(seen: set<string>, lawful: seq<Candidate>, excluded: map<string, Exclusion>)

  /** The candidates looked at so far are sound, and are sorted into those two. */
  ghost predicate Judged(cs: seq<Candidate>, j: Judging) {
    match j
    case Judging(seen, lawful, excluded) =>
      && (forall d :: d in cs ==> d.id in seen)
      && (forall k :: k in seen ==> exists i :: 0 <= i < |cs| && cs[i].id == k)
      && SoundCandidates(cs) && Sorts(cs, lawful, excluded)
  }

  lemma JudgeOne(cs: seq<Candidate>, j: Judging, c: Candidate, why: Option<Exclusion>)
    requires Judged(cs, j) && WellFormed(c) && c.id !in j.seen
    requires if why.None? then Lawful(c) else !Lawful(c) && ExcludedFor(c, why.value)
    ensures Judged(cs + [c], Judging(j.seen + {c.id}, if why.None? then j.lawful + [c] else j.lawful,
                                     if why.None? then j.excluded else j.excluded[c.id := why.value]))
  {
    var more := cs + [c];
    forall d | d in more ensures d in cs || d == c { }
    forall i | 0 <= i < |cs| ensures cs[i].id != c.id { assert cs[i] in cs; }
    forall k | k in j.seen + {c.id} ensures exists i :: 0 <= i < |more| && more[i].id == k {
      if k in j.seen {
        var i :| 0 <= i < |cs| && cs[i].id == k;
        assert more[i].id == k;
      } else {
        assert more[|cs|].id == k;
      }
    }
    if why.None? {
      SortsLawful(cs, j.lawful, j.excluded, c);
    } else {
      SortsExcluded(cs, j.lawful, j.excluded, c, why.value);
    }
  }

  lemma SeenMeansRepeated(cs: seq<Candidate>, i: nat, j: Judging)
    requires i < |cs| && Judged(cs[..i], j) && cs[i].id in j.seen
    ensures Repeated(cs, i)
  {
    var k :| 0 <= k < i && cs[..i][k].id == cs[i].id;
    assert cs[k].id == cs[i].id;
  }

  lemma NothingLawful(cs: seq<Candidate>, j: Judging)
    requires Judged(cs, j)
    ensures j.lawful == [] <==> !SomeLawful(cs)
    ensures SoundCandidates(cs)
  {
    if j.lawful != [] { assert j.lawful[0] in j.lawful; }
  }

  lemma SortedSplit(cs: seq<Candidate>, lawful: seq<Candidate>, excluded: map<string, Exclusion>)
    requires Sorts(cs, lawful, excluded)
    ensures Splits(cs, SortBy(Cheaper, lawful), excluded)
  {
    CheaperIsStrict();
    ComparableByCost(lawful);
    SortBySorts(Cheaper, lawful);
  }

  ghost predicate Repeated(cs: seq<Candidate>, i: nat)
    requires i < |cs|
  {
    exists k :: 0 <= k < i && cs[k].id == cs[i].id
  }

  ghost predicate SomeLawful(cs: seq<Candidate>) {
    exists c :: c in cs && Lawful(c)
  }

  /** The first candidate that cannot be taken, and the first thing wrong with it. */
  ghost predicate CandidateRefused(cs: seq<Candidate>, i: nat, error: Refusal) {
    i < |cs| && SoundCandidates(cs[..i]) &&
    if !WellFormed(cs[i]) then UnfitFor(cs[i], error)
    else Repeated(cs, i) && error == DuplicateCandidate(cs[i].id)
  }

  ghost predicate FrontierRefused(cs: seq<Candidate>, error: Refusal) {
    var grounded :=
      if SoundCandidates(cs) then error == NoLawfulFrontier else exists i: nat :: CandidateRefused(cs, i, error);
    grounded
  }

  lemma CandidateRefusedUnsound(cs: seq<Candidate>, i: nat, error: Refusal)
    requires CandidateRefused(cs, i, error)
    ensures !SoundCandidates(cs) && FrontierRefused(cs, error)
  {
    assert cs[i] in cs;
  }

  method PreserveActionFrontier(cs: seq<Candidate>)
    returns (r: Result<(seq<Candidate>, map<string, Exclusion>), Refusal>)
    ensures r.Ok? <==> SoundCandidates(cs) && SomeLawful(cs)
    ensures r.Ok? ==> Splits(cs, r.value.0, r.value.1)
    ensures r.Err? ==> FrontierRefused(cs, r.error)
  {
    var seen: set<string>, lawful: seq<Candidate>, excluded: map<string, Exclusion> := {}, [], map[];
    for i := 0 to |cs|
      invariant Judged(cs[..i], Judging(seen, lawful, excluded))
    {
      var c := cs[i];
      ghost var judging := Judging(seen, lawful, excluded);
      assert cs[..i + 1] == cs[..i] + [c];
      var unfit := Unfit(c);
      UnfitExactly(c);
      if unfit.Some? {
        CandidateRefusedUnsound(cs, i, unfit.value);
        return Err(unfit.value);
      }
      if c.id in seen {
        SeenMeansRepeated(cs, i, judging);
        CandidateRefusedUnsound(cs, i, DuplicateCandidate(c.id));
        return Err(DuplicateCandidate(c.id));
      }
      seen := seen + {c.id};
      var why := WhyExcluded(c);
      ExcludedExactly(c);
      JudgeOne(cs[..i], judging, c, why);
      if why.Some? {
        excluded := excluded[c.id := why.value];
      } else {
        lawful := lawful + [c];
      }
    }
    assert cs[..|cs|] == cs;
    NothingLawful(cs, Judging(seen, lawful, excluded));
    SortedSplit(cs, lawful, excluded);
    if lawful == [] {
      return Err(NoLawfulFrontier);
    }
    return Ok((SortBy(Cheaper, lawful), excluded));
  }

  method SelectCandidate(frontier: seq<Candidate>, id: string) returns (r: Result<Candidate, Refusal>)
    ensures r.Ok? <==> exists c :: c in frontier && c.id == id
    ensures r.Ok? ==> r.value in frontier && r.value.id == id
    ensures r.Err? ==> r.error == SelectionOutsideFrontier
  {
    for i := 0 to |frontier|
      invariant forall k :: 0 <= k < i ==> frontier[k].id != id
    {
      if frontier[i].id == id {
        return Ok(frontier[i]);
      }
    }
    return Err(SelectionOutsideFrontier);
  }

  // ----- Preparing -----

  ghost predicate Selectable(q: Request) {
    exists c :: c in q.candidates && Lawful(c) && c.id == q.selectedCandidate
  }

  /** What a request must be to be prepared. */
  ghost predicate Preparable(q: Request) {
    && IsSha40(q.subject) && !AllSpace(q.intent) && SomeFact(q.observations)
    && SoundCandidates(q.candidates) && Selectable(q)
    && q.verificationPassed && SomeFact(q.verificationEvidence)
  }

  ghost function Ids(cs: seq<Candidate>): seq<string> {
    seq(|cs|, i requires 0 <= i < |cs| => cs[i].id)
  }

  /** A prepared execution belongs to its request: every part and every digest. */
  ghost predicate PreparedFrom(q: Request, p: Prepared) {
    && p.request == q
    && p.oStar == OfObservation(q.subject, Facts(q.observations))
    && Splits(q.candidates, p.frontier, p.excluded)
    && p.selected in p.frontier && p.selected.id == q.selectedCandidate
    && p.artifact == OfArtifact(q.subject, p.oStar, p.selected.id, p.selected.consequence, p.selected.evidence)
    && p.verification == OfVerification(p.artifact, Facts(q.verificationEvidence))
    && p.intent.body == IntentBody(p.selected.id, q.subject, p.selected.consequence, p.oStar, Ids(p.frontier),
                                   p.excluded, p.artifact, p.verification, q.expectedPrecondition,
                                   q.expectedPostcondition)
    && p.intent.digest == OfIntent(p.intent.body)
  }

  /** The first thing that stands in the way of a request. */
  ghost predicate RequestRefused(q: Request, error: Refusal) {
    var grounded :=
      if !IsSha40(q.subject) then error == InvalidSubject
      else if AllSpace(q.intent) then error == EmptyIntent
      else if !SomeFact(q.observations) then error == EmptyObservation
      else if !SoundCandidates(q.candidates) || !SomeLawful(q.candidates) then FrontierRefused(q.candidates, error)
      else if !Selectable(q) then error == SelectionOutsideFrontier
      else if !q.verificationPassed then error == VerificationFailed
      else !SomeFact(q.verificationEvidence) && error == VerificationEvidenceMissing;
    grounded
  }

  method Prepare(q: Request) returns (r: Result<Prepared, Refusal>)
    ensures r.Ok? <==> Preparable(q)
    ensures r.Ok? ==> PreparedFrom(q, r.value)
    ensures r.Err? ==> RequestRefused(q, r.error)
  {
    if !IsSha40(q.subject) {
      return Err(InvalidSubject);
    }
    BlankExactly(q.intent);
    if Blank(q.intent) {
      return Err(EmptyIntent);
    }
    var facts := Facts(q.observations);
    SomeFactExactly(q.observations);
    if facts == {} {
      return Err(EmptyObservation);
    }
    var oStar := OfObservation(q.subject, facts);
    var split :- PreserveActionFrontier(q.candidates);
    var frontier, excluded := split.0, split.1;
    var selected :- SelectCandidate(frontier, q.selectedCandidate);
    var artifact := OfArtifact(q.subject, oStar, selected.id, selected.consequence, selected.evidence);
    if !q.verificationPassed {
      return Err(VerificationFailed);
    }
    var evidence := Facts(q.verificationEvidence);
    SomeFactExactly(q.verificationEvidence);
    if evidence == {} {
      return Err(VerificationEvidenceMissing);
    }
    var verification := OfVerification(artifact, evidence);
    var ids := seq(|frontier|, i requires 0 <= i < |frontier| => frontier[i].id);
    var body := IntentBody(selected.id, q.subject, selected.consequence, oStar, ids, excluded, artifact,
                           verification, q.expectedPrecondition, q.expectedPostcondition);
    return Ok(Prepared(q, oStar, frontier, excluded, selected, artifact, verification, Intent(body, OfIntent(body))));
  }

  // ----- Only the content of a request matters -----

  lemma FactsPermuted(a: seq<string>, b: seq<string>)
    requires multiset(a) == multiset(b)
    ensures Facts(a) == Facts(b)
  {
    forall o ensures o in a <==> o in b {
      MultisetMember(a, o);
      MultisetMember(b, o);
    }
  }

  lemma FactsRepeated(a: seq<string>, o: string)
    requires o in a
    ensures Facts(a + [o]) == Facts(a)
  {
    forall f ensures f in Facts(a + [o]) <==> f in Facts(a) { }
  }

  lemma FactsPadded(a: seq<string>, i: nat, w: string, v: string)
    requires i < |a| && AllSpace(w) && AllSpace(v)
    ensures Facts(a[i := w + a[i] + v]) == Facts(a)
  {
    Padding(w, a[i], v);
    var b := a[i := w + a[i] + v];
    forall f ensures f in Facts(b) <==> f in Facts(a) {
      if f in Facts(b) {
        var k :| 0 <= k < |b| && !Blank(b[k]) && Strip(b[k]) == f;
        assert a[k] in a && Strip(a[k]) == f;
      }
      if f in Facts(a) {
        var k :| 0 <= k < |a| && !Blank(a[k]) && Strip(a[k]) == f;
        assert b[k] in b && Strip(b[k]) == f;
      }
    }
  }

  /** The same request, written differently: candidates in another order, notes that stand
      for the same facts. */
  ghost predicate SameContent(q: Request, r: Request) {
    && multiset(q.candidates) == multiset(r.candidates)
    && Facts(q.observations) == Facts(r.observations)
    && Facts(q.verificationEvidence) == Facts(r.verificationEvidence)
    && r == q.(candidates := r.candidates, observations := r.observations,
               verificationEvidence := r.verificationEvidence)
  }

  lemma SoundPermuted(a: seq<Candidate>, b: seq<Candidate>)
    requires multiset(a) == multiset(b) && SoundCandidates(a)
    ensures SoundCandidates(b)
  {
    forall c ensures c in a <==> c in b {
      MultisetMember(a, c);
      MultisetMember(b, c);
    }
    forall i, j | 0 <= i < j < |b| ensures b[i].id != b[j].id {
      if b[i].id == b[j].id {
        assert b[i] in a && b[j] in a;
        var x :| 0 <= x < |a| && a[x] == b[i];
        var y :| 0 <= y < |a| && a[y] == b[j];
        assert b[i] == b[j];
        Twice(b, i, j);
        Once(a, x);
      }
    }
  }

  lemma Twice(s: seq<Candidate>, i: nat, j: nat)
    requires i < j < |s| && s[i] == s[j]
    ensures multiset(s)[s[i]] >= 2
  {
    assert s == s[..j] + [s[j]] + s[j + 1..];
    assert s[i] == s[..j][i];
    MultisetMember(s[..j], s[i]);
  }

  lemma Once(s: seq<Candidate>, i: nat)
    requires i < |s| && forall x, y :: 0 <= x < y < |s| ==> s[x].id != s[y].id
    ensures multiset(s)[s[i]] == 1
  {
    assert s == s[..i] + [s[i]] + s[i + 1..];
    MultisetMember(s[..i], s[i]);
    MultisetMember(s[i + 1..], s[i]);
  }

  lemma SplitsUnique(a: seq<Candidate>, f: seq<Candidate>, x: map<string, Exclusion>,
                     b: seq<Candidate>, g: seq<Candidate>, y: map<string, Exclusion>)
    requires Splits(a, f, x) && Splits(b, g, y) && forall c :: c in a <==> c in b
    ensures f == g && x == y
  {
    CheaperIsStrict();
    forall c ensures c in f <==> c in g { }
    StrictlySortedLength(f, g);
    StrictlySortedUnique(Cheaper, f, g);
    forall k ensures k in x <==> k in y { }
    forall k | k in x ensures x[k] == y[k] {
      var c :| c in a && c.id == k && !Lawful(c);
    }
  }

  lemma StrictlySortedLength(s: seq<Candidate>, t: seq<Candidate>)
    requires StrictOrder(Cheaper) && StrictlySorted(Cheaper, s) && forall c :: c in s ==> c in t
    requires StrictlySorted(Cheaper, t) && forall c :: c in t ==> c in s
    ensures |s| == |t|
  {
    SortedCardinality(Cheaper, s);
    SortedCardinality(Cheaper, t);
    assert (set c | c in s) == (set c | c in t);
  }

  /** Preparation depends on content only: written differently, a request is prepared if and
      only if the original is, and to the same intent with the same digest. */
  lemma PreparationIgnoresPresentation(q: Request, r: Request)
    requires SameContent(q, r)
    ensures Preparable(q) <==> Preparable(r)
    ensures forall p, o :: Preparable(q) && PreparedFrom(q, p) && PreparedFrom(r, o) ==> p.intent == o.intent
  {
    forall c ensures c in q.candidates <==> c in r.candidates {
      MultisetMember(q.candidates, c);
      MultisetMember(r.candidates, c);
    }
    SomeFactExactly(q.observations);
    SomeFactExactly(r.observations);
    SomeFactExactly(q.verificationEvidence);
    SomeFactExactly(r.verificationEvidence);
    if SoundCandidates(q.candidates) { SoundPermuted(q.candidates, r.candidates); }
    if SoundCandidates(r.candidates) { SoundPermuted(r.candidates, q.candidates); }
    forall p, o | Preparable(q) && PreparedFrom(q, p) && PreparedFrom(r, o) ensures p.intent == o.intent {
      SplitsUnique(q.candidates, p.frontier, p.excluded, r.candidates, o.frontier, o.excluded);
      SameSelection(q.candidates, p.selected, o.selected);
    }
  }

  lemma SameSelection(cs: seq<Candidate>, c: Candidate, d: Candidate)
    requires SoundCandidates(cs) && c in cs && d in cs && c.id == d.id
    ensures c == d
  {
  }
}
