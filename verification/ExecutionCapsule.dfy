/** From plan to closed execution: the capsule that fences a plan, the grant that admits one
    of its intents, and the evidence that closes it. Nothing here actuates. */
module ExecutionCapsule {
  import opened Prelude
  import opened Text
  import opened ReleaseManifest
  import opened RepairFrontier
  import Dod = DefinitionOfDone
  import opened HashChain

  // ----- Values presented from outside -----

  /** A text field of a presented object, which may hold something else. */
  datatype TextField = NotText | Text(text: string)

  /** A time field as parsing leaves it: no text or a blank one, not a time, without zone, or
      an instant. */
  datatype TimeField = NotTextTime | Garbled | NoZone | At(instant: int)

  datatype ListField = NotStrings | Strings(items: seq<string>)

  datatype ExitField = NotInteger | Exit(code: int)

  /** The digest of each control artifact is a free constructor over its body; presented
      objects may carry any other text in its place. */
  datatype ControlDigest =
    | OfManifest(manifest: Manifest)
    | OfIntent(intent: IntentBody)
    | OfCapsule(capsule: CapsuleBody)
    | OfAdmission(admission: AdmissionBody)
    | Foreign(text: string)

  datatype IntentBody = IntentBody(component: string, repository: string, ref: string, sha: string, role: string,
                                   standingBefore: string, blocker: Option<string>, action: string,
                                   directUnlocks: nat, transitiveUnlocks: nat, reversibility: nat,
                                   evidenceCost: nat, authorityCost: nat, manifestDigest: ControlDigest)

  datatype Intent = Intent(body: IntentBody, digest: ControlDigest)

  datatype CapsuleBody = CapsuleBody(schema: string, done: bool, manifestDigest: ControlDigest,
                                     actionable: seq<Candidate>, blocked: seq<Candidate>,
                                     selectedIntents: seq<Intent>, unselectedCount: nat,
                                     consequentialDo: bool, exclusiveDoPath: string, report: Dod.Report)

  datatype Capsule = Capsule(body: CapsuleBody, digest: Option<ControlDigest>)

  datatype Grant = Grant(authorityId: Option<TextField>, actor: Option<TextField>,
                         capsuleDigest: Option<ControlDigest>, subjectSha: Option<string>,
                         intentDigest: Option<ControlDigest>, scope: Option<string>,
                         issuedAt: Option<TimeField>, notBefore: Option<TimeField>, expiresAt: Option<TimeField>)

  datatype AdmissionBody = AdmissionBody(schema: string, admitted: bool, authorityId: string, actor: string,
                                         scope: string, issuedAt: TimeField, notBefore: TimeField,
                                         expiresAt: TimeField, capsuleDigest: ControlDigest, subjectSha: string,
                                         intentDigest: ControlDigest, action: string, consequentialDo: bool)

  datatype Admission = Admission(body: AdmissionBody, digest: Option<ControlDigest>)

  datatype Evidence = Evidence(subjectSha: Option<string>, intentDigest: Option<ControlDigest>,
                               exitCode: Option<ExitField>, postconditionVerified: Option<bool>,
                               verifier: Option<TextField>, verifierReceipt: Option<TextField>,
                               observedAt: Option<TimeField>, changed: Option<ListField>,
                               verified: Option<ListField>, replay: Option<ListField>)

  datatype Content =
    | AdmissionEvent(admissionDigest: ControlDigest, authorityId: string, actor: string, scope: string,
                     subjectSha: string, intentDigest: ControlDigest)
    | ActuationObserved(subjectSha: string, intentDigest: ControlDigest, exitCode: int, changed: seq<string>,
                        observedAt: TimeField)
    | PostconditionVerified(verifier: string, verifierReceipt: string, verified: seq<string>)
    | ReplayBound(replay: seq<string>)

  datatype Closure = Closure(subjectSha: string, intentDigest: ControlDigest, authorityId: string,
                             verifierReceipt: string, events: seq<Item<Content>>)

  datatype Refusal =
    | LimitInvalid | ManifestRefused(code: Code) | DodRefused(refusal: Dod.Refusal) | NoLawfulFrontier
    | CapsuleSchemaInvalid | CapsuleTampered | CapsuleAmbientDo | CapsuleFenceInvalid
    | AuthorityMissing | GrantMalformed | CapsuleDrift | IntentNotSelected | SubjectDrift | ScopeUnsupported
    | AuthorityIdInvalid | ActorInvalid | TimeInvalid | TimezoneRequired | GrantWindowInvalid
    | GrantNotYetValid | GrantExpired
    | AdmissionSchemaInvalid | AdmissionTampered | NotAdmitted | AdmissionAmbientDo
    | EvidenceMalformed | IntentDrift | ExitCodeInvalid | ExecutionFailed | PostconditionNotVerified
    | EvidenceFieldInvalid | BeforeAuthorityWindow | AfterAuthorityExpiry | VerificationEmpty | ReplayEmpty

  const CAPSULE_SCHEMA := "urn:chatman:dfcm:execution-capsule:v1"
  const ADMISSION_SCHEMA := "urn:chatman:brce:admission:v1"
  const EVENT_SCHEMA := "urn:chatman:dfcm:evidence-event:v1"
  const BRCE_SCOPE := "BRCE:VERIFY_REPAIR_ONLY"

  // ----- Constructing the capsule -----

  function ActionFor(standing: string): string {
    match standing
    case "BUILD_BROKEN" => "DIAGNOSE_REPAIR_VERIFY"
    case "BLOCKED" => "RECLASSIFY_OR_USE_BOUNDED_ALTERNATE_TRANSPORT"
    case "PARTIAL_ALIVE" => "CLOSE_MISSING_EXACT_EXECUTION_EDGE"
    case "UNKNOWN" => "ORIENT_EXECUTE_CANONICAL_VERIFIER"
    case _ => "PRESERVE_UNSUPPORTED_EDGE"
  }

  function ManufactureIntent(c: Candidate, manifestDigest: ControlDigest): Intent {
    var body := IntentBody(c.row.id, c.row.repository, c.row.ref, c.row.sha, c.row.role, c.row.standing, c.row.blocker,
                           ActionFor(c.row.standing), c.directUnlocks, c.transitiveUnlocks, c.reversibility,
                           c.evidenceCost, c.authorityCost, manifestDigest);
    Intent(body, OfIntent(body))
  }

  function ManufactureAll(cs: seq<Candidate>, manifestDigest: ControlDigest): seq<Intent> {
    seq(|cs|, i requires 0 <= i < |cs| => ManufactureIntent(cs[i], manifestDigest))
  }

  /** What is to be done about a component of a standing. */
  ghost predicate ActionReads(standing: string, action: string) {
    && (standing == "BUILD_BROKEN" ==> action == "DIAGNOSE_REPAIR_VERIFY")
    && (standing == "BLOCKED" ==> action == "RECLASSIFY_OR_USE_BOUNDED_ALTERNATE_TRANSPORT")
    && (standing == "PARTIAL_ALIVE" ==> action == "CLOSE_MISSING_EXACT_EXECUTION_EDGE")
    && (standing == "UNKNOWN" ==> action == "ORIENT_EXECUTE_CANONICAL_VERIFIER")
    && (standing == "UNSUPPORTED" ==> action == "PRESERVE_UNSUPPORTED_EDGE")
  }

  /** The intent names the candidate's component as the manifest has it, and carries its own digest. */
  ghost predicate IntentReads(intent: Intent, c: Candidate, manifestDigest: ControlDigest) {
    match intent.body
    case IntentBody(component, repository, ref, sha, role, standing, blocker, action, direct, transitive, reversibility,
                    evidenceCost, authorityCost, manifest) =>
      && intent.digest == OfIntent(intent.body) && manifest == manifestDigest
      && component == c.row.id && repository == c.row.repository && ref == c.row.ref && sha == c.row.sha
      && role == c.row.role && standing == c.row.standing && blocker == c.row.blocker && ActionReads(standing, action)
      && direct == c.directUnlocks && transitive == c.transitiveUnlocks && reversibility == c.reversibility
      && evidenceCost == c.evidenceCost && authorityCost == c.authorityCost
  }

  lemma IntentExactly(c: Candidate, manifestDigest: ControlDigest)
    ensures IntentReads(ManufactureIntent(c, manifestDigest), c, manifestDigest)
  {
  }

  /** The intents are those of the first candidates, as many as the limit allows; none when the
      release is done. */
  ghost predicate Selects(done: bool, limit: int, actionable: seq<Candidate>, intents: seq<Intent>,
                          manifestDigest: ControlDigest)
  {
    && |intents| == (if done then 0 else if limit < |actionable| then limit else |actionable|)
    && forall i :: 0 <= i < |intents| ==> IntentReads(intents[i], actionable[i], manifestDigest)
  }

  /** A capsule as construction leaves it. */
  ghost predicate CapsuleOf(m: Manifest, limit: int, c: Capsule) {
    var table := TableOf(m.components);
    && limit >= 1 && Admissible(m.components) && Dod.Reportable(table, m)
    && c.digest == Some(OfCapsule(c.body))
    && c.body.schema == "urn:chatman:dfcm:execution-capsule:v1"
    && !c.body.consequentialDo && c.body.exclusiveDoPath == "BRCE"
    && c.body.manifestDigest == OfManifest(m)
    && FrontierOf(table, c.body.actionable) && BlockedOf(table, c.body.blocked)
    && Dod.ReportOf(table, m, c.body.report)
    && c.body.done == Dod.Done(table, m.requiredRoles)
    && Selects(c.body.done, limit, c.body.actionable, c.body.selectedIntents, OfManifest(m))
    && c.body.unselectedCount == |c.body.actionable| - |c.body.selectedIntents|
  }

  function Top<T>(s: seq<T>, limit: int): seq<T>
    requires limit >= 1
  {
    if limit <= |s| then s[..limit] else s
  }

  /** The first thing that stands in the way of a capsule. */
  ghost predicate ConstructionRefused(m: Manifest, limit: int, error: Refusal) {
    var grounded :=
      if limit < 1 then error == LimitInvalid
      else if !Admissible(m.components) then error.ManifestRefused? && RowsRefused(m.components, error.code)
      else if !Dod.Reportable(TableOf(m.components), m)
      then error.DodRefused? && Dod.ReportRefused(TableOf(m.components), m, error.refusal)
      else error == NoLawfulFrontier && !Dod.Done(TableOf(m.components), m.requiredRoles) &&
           FrontierSet(TableOf(m.components)) == {};
    grounded
  }

  /** Three outcomes: done, carry on with a selected intent, or a refusal because the release
      is not done and nothing can lawfully be repaired. */
  method ConstructCapsule(m: Manifest, limit: int) returns (r: Result<Capsule, Refusal>)
    ensures r.Ok? ==> CapsuleOf(m, limit, r.value)
    ensures r.Ok? && !r.value.body.done ==> FrontierSet(TableOf(m.components)) != {}
    ensures r.Err? ==> ConstructionRefused(m, limit, r.error)
    ensures r.Ok? <==> limit >= 1 && Admissible(m.components) && Dod.Reportable(TableOf(m.components), m) &&
                       (Dod.Done(TableOf(m.components), m.requiredRoles) || FrontierSet(TableOf(m.components)) != {})
  {
    if limit < 1 {
      return Err(LimitInvalid);
    }
    var admitted := Components(m.components);
    if admitted.Err? {
      return Err(ManifestRefused(admitted.error));
    }
    var table := admitted.value;
    var actionable, blocked := Preserve(table);
    var report := Dod.Evaluate(table, m);
    if report.Err? {
      return Err(DodRefused(report.error));
    }
    FrontierEmpty(table, actionable);
    var done := report.value.done;
    var selected := if done then [] else Top(actionable, limit);
    var intents := ManufactureAll(selected, OfManifest(m));
    forall i | 0 <= i < |intents| ensures IntentReads(intents[i], actionable[i], OfManifest(m)) {
      IntentExactly(selected[i], OfManifest(m));
    }
    if !done && intents == [] {
      return Err(NoLawfulFrontier);
    }
    var body := CapsuleBody(CAPSULE_SCHEMA, done, OfManifest(m), actionable, blocked, intents,
                            |actionable| - |intents|, false, "BRCE", report.value);
    return Ok(Capsule(body, Some(OfCapsule(body))));
  }

  // ----- Admitting a grant -----

  function VerifyCapsule(c: Capsule): Option<Refusal> {
    if c.body.schema != CAPSULE_SCHEMA then Some(CapsuleSchemaInvalid)
    else if c.digest != Some(OfCapsule(c.body)) then Some(CapsuleTampered)
    else if c.body.consequentialDo then Some(CapsuleAmbientDo)
    else if c.body.exclusiveDoPath != "BRCE" then Some(CapsuleFenceInvalid)
    else None
  }

  ghost predicate GenuineCapsule(c: Capsule) {
    && c.body.schema == "urn:chatman:dfcm:execution-capsule:v1" && c.digest == Some(OfCapsule(c.body))
    && !c.body.consequentialDo && c.body.exclusiveDoPath == "BRCE"
  }

  lemma CapsuleExactly(c: Capsule)
    ensures VerifyCapsule(c).None? <==> GenuineCapsule(c)
  {
  }

  /** The first selected intent with the given digest. */
  function IntentByDigest(intents: seq<Intent>, d: ControlDigest): (r: Option<Intent>)
    ensures r.Some? ==> r.value in intents && r.value.digest == d
    ensures r.None? ==> forall i :: i in intents ==> i.digest != d
  {
    if intents == [] then None
    else if intents[0].digest == d then Some(intents[0])
    else IntentByDigest(intents[1..], d)
  }

  /** The intent that the digest stands for: the first of those that have it. */
  ghost predicate Names(intents: seq<Intent>, d: ControlDigest, intent: Intent) {
    exists i: nat :: NamesAt(intents, d, intent, i)
  }

  ghost predicate NamesAt(intents: seq<Intent>, d: ControlDigest, intent: Intent, i: nat) {
    i < |intents| && intents[i] == intent && intent.digest == d && forall k :: 0 <= k < i ==> intents[k].digest != d
  }

  lemma {:induction false} IntentByDigestExactly(intents: seq<Intent>, d: ControlDigest, intent: Intent)
    ensures IntentByDigest(intents, d) == Some(intent) <==> Names(intents, d, intent)
  {
    if intents != [] && intents[0].digest != d {
      var rest := intents[1..];
      IntentByDigestExactly(rest, d, intent);
      if i: nat :| NamesAt(rest, d, intent, i) {
        forall k | 0 <= k < i + 1 ensures intents[k].digest != d {
          if k > 0 { assert rest[k - 1].digest != d; }
        }
        assert NamesAt(intents, d, intent, i + 1);
      }
      if i: nat :| NamesAt(intents, d, intent, i) { assert NamesAt(rest, d, intent, i - 1); }
    } else if intents != [] {
      assert NamesAt(intents, d, intents[0], 0);
    }
  }

  function ParseTime(t: TimeField): Result<int, Refusal> {
    match t
    case NotTextTime => Err(TimeInvalid)
    case Garbled => Err(TimeInvalid)
    case NoZone => Err(TimezoneRequired)
    case At(instant) => Ok(instant)
  }

  predicate Complete(g: Grant) {
    g.authorityId.Some? && g.actor.Some? && g.capsuleDigest.Some? && g.subjectSha.Some? && g.intentDigest.Some? &&
    g.scope.Some? && g.issuedAt.Some? && g.notBefore.Some? && g.expiresAt.Some?
  }

  predicate Meaningful(t: TextField) {
    t.Text? && !Blank(t.text)
  }

  /** The field says something. */
  ghost predicate Says(t: TextField) {
    t.Text? && !AllSpace(t.text)
  }

  lemma MeaningfulExactly(t: TextField)
    ensures Meaningful(t) <==> Says(t)
  {
    if t.Text? { BlankExactly(t.text); }
  }

  /** The four times are compared: the window must be one, and be open now. */
  function Unopened(g: Grant, now: TimeField): Result<(), Refusal>
    requires Complete(g)
  {
    var current :- ParseTime(now);
    var issued :- ParseTime(g.issuedAt.value);
    var notBefore :- ParseTime(g.notBefore.value);
    var expires :- ParseTime(g.expiresAt.value);
    if issued > notBefore then Err(GrantWindowInvalid)
    else if notBefore >= expires then Err(GrantWindowInvalid)
    else if current < notBefore then Err(GrantNotYetValid)
    else if current >= expires then Err(GrantExpired)
    else Ok(())
  }

  function AdmitGrant(c: Capsule, grant: Option<Grant>, now: TimeField): Result<Admission, Refusal> {
    var unfit := VerifyCapsule(c);
    if unfit.Some? then Err(unfit.value)
    else if grant.None? then Err(AuthorityMissing)
    else if !Complete(grant.value) then Err(GrantMalformed)
    else
      var g := grant.value;
      if Some(g.capsuleDigest.value) != c.digest then Err(CapsuleDrift) else
      var intent := IntentByDigest(c.body.selectedIntents, g.intentDigest.value);
      if intent.None? then Err(IntentNotSelected)
      else if g.subjectSha.value != intent.value.body.sha then Err(SubjectDrift)
      else if g.scope.value != BRCE_SCOPE then Err(ScopeUnsupported)
      else if !Meaningful(g.authorityId.value) then Err(AuthorityIdInvalid)
      else if !Meaningful(g.actor.value) then Err(ActorInvalid)
      else
        var _ :- Unopened(g, now);
        var body := AdmissionBody(ADMISSION_SCHEMA, true, g.authorityId.value.text, g.actor.value.text,
                                  g.scope.value, g.issuedAt.value, g.notBefore.value, g.expiresAt.value,
                                  g.capsuleDigest.value, g.subjectSha.value, g.intentDigest.value,
                                  intent.value.body.action, false);
        Ok(Admission(body, Some(OfAdmission(body))))
  }

  // ----- Closing an execution -----

  function VerifyAdmission(a: Admission): Option<Refusal> {
    if a.body.schema != ADMISSION_SCHEMA then Some(AdmissionSchemaInvalid)
    else if a.digest != Some(OfAdmission(a.body)) then Some(AdmissionTampered)
    else if !a.body.admitted then Some(NotAdmitted)
    else if a.body.consequentialDo then Some(AdmissionAmbientDo)
    else None
  }

  ghost predicate GenuineAdmission(a: Admission) {
    && a.body.schema == "urn:chatman:brce:admission:v1" && a.digest == Some(OfAdmission(a.body))
    && a.body.admitted && !a.body.consequentialDo
  }

  lemma AdmissionExactly(a: Admission)
    ensures VerifyAdmission(a).None? <==> GenuineAdmission(a)
  {
  }

  predicate EvidenceComplete(e: Evidence) {
    e.subjectSha.Some? && e.intentDigest.Some? && e.exitCode.Some? && e.postconditionVerified.Some? &&
    e.verifier.Some? && e.verifierReceipt.Some? && e.observedAt.Some? && e.changed.Some? &&
    e.verified.Some? && e.replay.Some?
  }

  function ClosingContents(a: Admission, e: Evidence): seq<Content>
    requires EvidenceComplete(e) && a.digest.Some? && e.exitCode.value.Exit? && e.changed.value.Strings?
    requires e.verified.value.Strings? && e.replay.value.Strings? && e.verifier.value.Text? &&
        e.verifierReceipt.value.Text?
  {
    [AdmissionEvent(a.digest.value, a.body.authorityId, a.body.actor, a.body.scope, a.body.subjectSha,
        a.body.intentDigest),
     ActuationObserved(e.subjectSha.value, e.intentDigest.value, e.exitCode.value.code, e.changed.value.items,
         e.observedAt.value),
     PostconditionVerified(e.verifier.value.text, e.verifierReceipt.value.text, e.verified.value.items),
     ReplayBound(e.replay.value.items)]
  }

  /** What the evidence says is compared with the admission, and must be of a clean, verified exit. */
  function Unbound(a: Admission, e: Evidence): Option<Refusal>
    requires EvidenceComplete(e)
  {
    if e.subjectSha.value != a.body.subjectSha then Some(SubjectDrift)
    else if e.intentDigest.value != a.body.intentDigest then Some(IntentDrift)
    else if e.exitCode.value.NotInteger? then Some(ExitCodeInvalid)
    else if e.exitCode.value.code != 0 then Some(ExecutionFailed)
    else if !e.postconditionVerified.value then Some(PostconditionNotVerified)
    else if !Meaningful(e.verifier.value) || !Meaningful(e.verifierReceipt.value) then Some(EvidenceFieldInvalid)
    else if e.observedAt.value.NotTextTime? then Some(EvidenceFieldInvalid)
    else None
  }

  function Untimely(a: Admission, e: Evidence): Result<(), Refusal>
    requires EvidenceComplete(e)
  {
    var observed :- ParseTime(e.observedAt.value);
    var notBefore :- ParseTime(a.body.notBefore);
    var expires :- ParseTime(a.body.expiresAt);
    if observed < notBefore then Err(BeforeAuthorityWindow)
    else if observed >= expires then Err(AfterAuthorityExpiry)
    else Ok(())
  }

  function Unlisted(e: Evidence): Option<Refusal>
    requires EvidenceComplete(e)
  {
    if e.changed.value.NotStrings? || e.verified.value.NotStrings? || e.replay.value.NotStrings? then
      Some(EvidenceFieldInvalid)
    else if e.verified.value.items == [] then Some(VerificationEmpty)
    else if e.replay.value.items == [] then Some(ReplayEmpty)
    else None
  }

  function CloseExecution(c: Capsule, a: Admission, e: Evidence): Result<Closure, Refusal> {
    var unfit := VerifyCapsule(c);
    if unfit.Some? then Err(unfit.value) else
    var unadmitted := VerifyAdmission(a);
    if unadmitted.Some? then Err(unadmitted.value)
    else if Some(a.body.capsuleDigest) != c.digest then Err(CapsuleDrift)
    else if !EvidenceComplete(e) then Err(EvidenceMalformed)
    else
      var unbound := Unbound(a, e);
      if unbound.Some? then Err(unbound.value) else
      var _ :- Untimely(a, e);
      var unlisted := Unlisted(e);
      if unlisted.Some? then Err(unlisted.value)
      else
        Ok(Closure(e.subjectSha.value, e.intentDigest.value, a.body.authorityId, e.verifierReceipt.value.text,
                   SealAll(EVENT_SCHEMA, ClosingContents(a, e))))
  }

  // ----- What the pipeline guarantees as a whole -----

  lemma SelectedIntent(m: Manifest, limit: int, c: Capsule, intent: Intent)
    requires CapsuleOf(m, limit, c) && intent in c.body.selectedIntents
    ensures !c.body.done
    ensures intent.digest == OfIntent(intent.body)
    ensures intent.body.component in FrontierSet(TableOf(m.components))
    ensures intent.body.sha == TableOf(m.components)[intent.body.component].sha
  {
    var i :| 0 <= i < |c.body.selectedIntents| && c.body.selectedIntents[i] == intent;
    assert IntentReads(intent, c.body.actionable[i], OfManifest(m));
    assert c.body.actionable[i] in c.body.actionable;
  }

  /** t is an instant of the half-open window. */
  ghost predicate Within(t: TimeField, start: TimeField, end: TimeField) {
    t.At? && start.At? && end.At? && start.instant <= t.instant < end.instant
  }

  /** What makes a grant admissible against a capsule, at a time: it is for that capsule, for an
      intent selected in it and the commit of that, in the one scope there is; it names an authority
      and an actor; it was issued before its window opens, and the time falls in the window. */
  ghost predicate Grantable(c: Capsule, g: Grant, now: TimeField) {
    match g
    case Grant(Some(authorityId), Some(actor), Some(capsuleDigest), Some(sha), Some(intentDigest), Some(scope),
               Some(issuedAt), Some(notBefore), Some(expiresAt)) =>
      && c.digest == Some(capsuleDigest) && scope == "BRCE:VERIFY_REPAIR_ONLY"
      && (exists intent :: Names(c.body.selectedIntents, intentDigest, intent) && intent.body.sha == sha)
      && Says(authorityId) && Says(actor) && Within(now, notBefore, expiresAt)
      && issuedAt.At? && issuedAt.instant <= notBefore.instant
    case _ => false
  }

  ghost predicate IsAnInstant(t: Option<TimeField>) {
    match t
    case Some(At(_)) => true
    case _ => false
  }

  ghost predicate Earlier(t: Option<TimeField>, u: Option<TimeField>) {
    match (t, u)
    case (Some(At(a)), Some(At(b))) => a < b
    case _ => false
  }

  ghost predicate Silent(t: Option<TextField>) {
    t.Some? && !Says(t.value)
  }

  ghost predicate CapsuleRefusedFor(c: Capsule, error: Refusal) {
    match error
    case CapsuleSchemaInvalid => c.body.schema != "urn:chatman:dfcm:execution-capsule:v1"
    case CapsuleTampered => c.digest != Some(OfCapsule(c.body))
    case CapsuleAmbientDo => c.body.consequentialDo
    case CapsuleFenceInvalid => c.body.exclusiveDoPath != "BRCE"
    case _ => false
  }

  /** The ground of each refusal of a grant. */
  ghost predicate GrantRefusedFor(c: Capsule, g: Grant, now: TimeField, error: Refusal) {
    match error
    case GrantMalformed =>
      || g.authorityId.None? || g.actor.None? || g.capsuleDigest.None? || g.subjectSha.None? || g.intentDigest.None?
      || g.scope.None? || g.issuedAt.None? || g.notBefore.None? || g.expiresAt.None?
    case CapsuleDrift => g.capsuleDigest != c.digest
    case IntentNotSelected =>
      forall intent :: intent in c.body.selectedIntents ==> Some(intent.digest) != g.intentDigest
    case SubjectDrift =>
      exists intent :: intent in c.body.selectedIntents && Some(intent.digest) == g.intentDigest &&
                       Some(intent.body.sha) != g.subjectSha
    case ScopeUnsupported => g.scope != Some("BRCE:VERIFY_REPAIR_ONLY")
    case AuthorityIdInvalid => Silent(g.authorityId)
    case ActorInvalid => Silent(g.actor)
    case TimeInvalid =>
      !IsAnInstant(Some(now)) || !IsAnInstant(g.issuedAt) || !IsAnInstant(g.notBefore) || !IsAnInstant(g.expiresAt)
    case TimezoneRequired =>
      now == NoZone || g.issuedAt == Some(NoZone) || g.notBefore == Some(NoZone) || g.expiresAt == Some(NoZone)
    case GrantWindowInvalid => Earlier(g.notBefore, g.issuedAt) || !Earlier(g.notBefore, g.expiresAt)
    case GrantNotYetValid => Earlier(Some(now), g.notBefore)
    case GrantExpired => !Earlier(Some(now), g.expiresAt)
    case _ => CapsuleRefusedFor(c, error)
  }

  lemma UnopenedTruly(c: Capsule, g: Grant, now: TimeField)
    requires Complete(g) && Unopened(g, now).Err?
    ensures GrantRefusedFor(c, g, now, Unopened(g, now).error)
  {
  }

  lemma GrantRefusedTruly(c: Capsule, g: Grant, now: TimeField)
    requires AdmitGrant(c, Some(g), now).Err?
    ensures GrantRefusedFor(c, g, now, AdmitGrant(c, Some(g), now).error)
  {
    if g.authorityId.Some? { MeaningfulExactly(g.authorityId.value); }
    if g.actor.Some? { MeaningfulExactly(g.actor.value); }
    if Complete(g) {
      if Unopened(g, now).Err? { UnopenedTruly(c, g, now); }
      var found := IntentByDigest(c.body.selectedIntents, g.intentDigest.value);
      assert found.Some? ==> found.value in c.body.selectedIntents && Some(found.value.digest) == g.intentDigest;
    }
  }

  ghost predicate AdmissionRefusedFor(a: Admission, error: Refusal) {
    match error
    case AdmissionSchemaInvalid => a.body.schema != "urn:chatman:brce:admission:v1"
    case AdmissionTampered => a.digest != Some(OfAdmission(a.body))
    case NotAdmitted => !a.body.admitted
    case AdmissionAmbientDo => a.body.consequentialDo
    case _ => false
  }

  /** The ground of each refusal to close. */
  ghost predicate EvidenceRefusedFor(c: Capsule, a: Admission, e: Evidence, error: Refusal) {
    match error
    case CapsuleDrift => Some(a.body.capsuleDigest) != c.digest
    case EvidenceMalformed =>
      || e.subjectSha.None? || e.intentDigest.None? || e.exitCode.None? || e.postconditionVerified.None?
      || e.verifier.None? || e.verifierReceipt.None? || e.observedAt.None? || e.changed.None? || e.verified.None?
      || e.replay.None?
    case SubjectDrift => e.subjectSha != Some(a.body.subjectSha)
    case IntentDrift => e.intentDigest != Some(a.body.intentDigest)
    case ExitCodeInvalid => e.exitCode == Some(NotInteger)
    case ExecutionFailed => e.exitCode != Some(Exit(0))
    case PostconditionNotVerified => e.postconditionVerified == Some(false)
    case EvidenceFieldInvalid =>
      || Silent(e.verifier) || Silent(e.verifierReceipt) || e.observedAt == Some(NotTextTime)
      || e.changed == Some(NotStrings) || e.verified == Some(NotStrings) || e.replay == Some(NotStrings)
    case TimeInvalid =>
      !IsAnInstant(e.observedAt) || !IsAnInstant(Some(a.body.notBefore)) || !IsAnInstant(Some(a.body.expiresAt))
    case TimezoneRequired => e.observedAt == Some(NoZone) || a.body.notBefore == NoZone || a.body.expiresAt == NoZone
    case BeforeAuthorityWindow => Earlier(e.observedAt, Some(a.body.notBefore))
    case AfterAuthorityExpiry => !Earlier(e.observedAt, Some(a.body.expiresAt))
    case VerificationEmpty => e.verified == Some(Strings([]))
    case ReplayEmpty => e.replay == Some(Strings([]))
    case _ => CapsuleRefusedFor(c, error) || AdmissionRefusedFor(a, error)
  }

  lemma UnboundTruly(c: Capsule, a: Admission, e: Evidence)
    requires EvidenceComplete(e) && Unbound(a, e).Some?
    ensures EvidenceRefusedFor(c, a, e, Unbound(a, e).value)
  {
    MeaningfulExactly(e.verifier.value);
    MeaningfulExactly(e.verifierReceipt.value);
  }

  lemma UntimelyTruly(c: Capsule, a: Admission, e: Evidence)
    requires EvidenceComplete(e) && Untimely(a, e).Err?
    ensures EvidenceRefusedFor(c, a, e, Untimely(a, e).error)
  {
  }

  lemma EvidenceRefusedTruly(c: Capsule, a: Admission, e: Evidence)
    requires CloseExecution(c, a, e).Err?
    ensures EvidenceRefusedFor(c, a, e, CloseExecution(c, a, e).error)
  {
    if EvidenceComplete(e) {
      if Unbound(a, e).Some? { UnboundTruly(c, a, e); }
      if Untimely(a, e).Err? { UntimelyTruly(c, a, e); }
    }
  }

  lemma ConstructedCapsuleIsSound(m: Manifest, limit: int, c: Capsule)
    requires CapsuleOf(m, limit, c)
    ensures GenuineCapsule(c)
    ensures forall i, j :: i in c.body.selectedIntents && j in c.body.selectedIntents && i.digest == j.digest ==> i == j
  {
    forall i, j | i in c.body.selectedIntents && j in c.body.selectedIntents && i.digest == j.digest ensures i == j {
      SelectedIntent(m, limit, c, i);
      SelectedIntent(m, limit, c, j);
    }
  }

  /** A grant is admitted exactly when it is grantable. */
  lemma AdmittedExactly(c: Capsule, g: Grant, now: TimeField)
    ensures AdmitGrant(c, Some(g), now).Ok? <==> GenuineCapsule(c) && Grantable(c, g, now)
  {
    CapsuleExactly(c);
    if g.intentDigest.Some? {
      var found := IntentByDigest(c.body.selectedIntents, g.intentDigest.value);
      forall intent ensures found == Some(intent) <==> Names(c.body.selectedIntents, g.intentDigest.value, intent) {
        IntentByDigestExactly(c.body.selectedIntents, g.intentDigest.value, intent);
      }
    }
    if g.authorityId.Some? { MeaningfulExactly(g.authorityId.value); }
    if g.actor.Some? { MeaningfulExactly(g.actor.value); }
  }

  /** What an admission takes over from the grant and the intent that it stands for. */
  ghost predicate AdmissionReads(c: Capsule, g: Grant, a: Admission) {
    match a.body
    case AdmissionBody(schema, admitted, authorityId, actor, scope, issuedAt, notBefore, expiresAt, capsuleDigest, sha,
                       intentDigest, action, consequentialDo) =>
      && g == Grant(Some(Text(authorityId)), Some(Text(actor)), Some(capsuleDigest), Some(sha), Some(intentDigest),
                    Some(scope), Some(issuedAt), Some(notBefore), Some(expiresAt))
      && GenuineAdmission(a) && c.digest == Some(capsuleDigest)
      && exists intent :: Names(c.body.selectedIntents, intentDigest, intent) && intent.body.sha == sha &&
                          intent.body.action == action
  }

  lemma AdmissionCopiesGrant(c: Capsule, g: Grant, now: TimeField, a: Admission)
    requires AdmitGrant(c, Some(g), now) == Ok(a)
    ensures AdmissionReads(c, g, a)
    ensures Within(now, a.body.notBefore, a.body.expiresAt)
  {
    AdmissionExactly(a);
    var intent := IntentByDigest(c.body.selectedIntents, g.intentDigest.value).value;
    IntentByDigestExactly(c.body.selectedIntents, g.intentDigest.value, intent);
  }

  /** The four events of a closure, and what each records. */
  ghost predicate ClosureReads(a: Admission, e: Evidence, cl: Closure) {
    match a.body
    case AdmissionBody(_, _, authorityId, _, _, _, _, _, _, sha, intentDigest, _, _) =>
      && cl.subjectSha == sha && cl.intentDigest == intentDigest && cl.authorityId == authorityId
      && e.verifierReceipt == Some(Text(cl.verifierReceipt))
      && Chained(cl.events) && |cl.events| == 4
      && forall k :: 0 <= k < 4 ==>
           cl.events[k].Item? && cl.events[k].schema == Some("urn:chatman:dfcm:evidence-event:v1") &&
           Recorded(cl.events[k].content, a, e, k)
  }

  ghost predicate Recorded(content: Content, a: Admission, e: Evidence, k: nat) {
    match content
    case AdmissionEvent(admissionDigest, authorityId, actor, scope, sha, intentDigest) =>
      && k == 0 && a.digest == Some(admissionDigest) && a.body.authorityId == authorityId && a.body.actor == actor
      && a.body.scope == scope && a.body.subjectSha == sha && a.body.intentDigest == intentDigest
    case ActuationObserved(sha, intentDigest, exitCode, changed, observedAt) =>
      && k == 1 && e.subjectSha == Some(sha) && e.intentDigest == Some(intentDigest) && exitCode == 0
      && e.changed == Some(Strings(changed)) && e.observedAt == Some(observedAt)
    case PostconditionVerified(verifier, verifierReceipt, verified) =>
      && k == 2 && e.verifier == Some(Text(verifier)) && e.verifierReceipt == Some(Text(verifierReceipt))
      && e.verified == Some(Strings(verified))
    case ReplayBound(replay) => k == 3 && e.replay == Some(Strings(replay))
  }

  lemma EventsSealed(a: Admission, e: Evidence, contents: seq<Content>, events: seq<Item<Content>>)
    requires |contents| == 4 && events == SealAll(EVENT_SCHEMA, contents)
    requires forall k :: 0 <= k < 4 ==> Recorded(contents[k], a, e, k)
    ensures Chained(events) && |events| == 4
    ensures forall k :: 0 <= k < 4 ==>
              events[k].Item? && events[k].schema == Some("urn:chatman:dfcm:evidence-event:v1") &&
              Recorded(events[k].content, a, e, k)
  {
    SealedReplays(EVENT_SCHEMA, contents);
  }

  lemma ClosureCopiesEvidence(c: Capsule, a: Admission, e: Evidence, cl: Closure)
    requires CloseExecution(c, a, e) == Ok(cl)
    ensures ClosureReads(a, e, cl)
    ensures e.subjectSha == Some(cl.subjectSha) && e.intentDigest == Some(cl.intentDigest)
    ensures Some(a.body.capsuleDigest) == c.digest
    ensures e.observedAt.Some? && Within(e.observedAt.value, a.body.notBefore, a.body.expiresAt)
    ensures e.exitCode == Some(Exit(0)) && e.postconditionVerified == Some(true)
  {
    var contents := ClosingContents(a, e);
    assert Recorded(contents[0], a, e, 0) && Recorded(contents[1], a, e, 1);
    assert Recorded(contents[2], a, e, 2) && Recorded(contents[3], a, e, 3);
    EventsSealed(a, e, contents, cl.events);
  }

  /** What evidence must be for an admitted execution to be closed. */
  ghost predicate Closable(c: Capsule, a: Admission, e: Evidence) {
    match e
    case Evidence(Some(sha), Some(intentDigest), Some(exitCode), Some(postcondition), Some(verifier),
                  Some(verifierReceipt), Some(observedAt), Some(changed), Some(verified), Some(replay)) =>
      && GenuineCapsule(c) && GenuineAdmission(a) && c.digest == Some(a.body.capsuleDigest)
      && sha == a.body.subjectSha && intentDigest == a.body.intentDigest && exitCode == Exit(0) && postcondition
      && Says(verifier) && Says(verifierReceipt) && Within(observedAt, a.body.notBefore, a.body.expiresAt)
      && changed.Strings? && verified.Strings? && verified.items != [] && replay.Strings? && replay.items != []
    case _ => false
  }

  /** An execution is closed if and only if its evidence is closable. */
  lemma ClosedExactly(c: Capsule, a: Admission, e: Evidence)
    ensures CloseExecution(c, a, e).Ok? <==> Closable(c, a, e)
  {
    CapsuleExactly(c);
    AdmissionExactly(a);
    if e.verifier.Some? { MeaningfulExactly(e.verifier.value); }
    if e.verifierReceipt.Some? { MeaningfulExactly(e.verifierReceipt.value); }
  }

  /** A grant for an intent, open from the moment it is used. */
  ghost function GrantFor(c: Capsule, intent: Intent, now: int): Grant
    requires c.digest.Some?
  {
    Grant(Some(Text("authority")), Some(Text("actor")), c.digest, Some(intent.body.sha), Some(intent.digest),
          Some("BRCE:VERIFY_REPAIR_ONLY"), Some(At(now)), Some(At(now)), Some(At(now + 1)))
  }

  ghost function EvidenceFor(a: Admission, now: int): Evidence {
    Evidence(Some(a.body.subjectSha), Some(a.body.intentDigest), Some(Exit(0)), Some(true), Some(Text("verifier")),
             Some(Text("receipt")), Some(At(now)), Some(Strings([])), Some(Strings(["verified"])),
                 Some(Strings(["replay"])))
  }

  lemma PlainTexts()
    ensures Says(Text("authority")) && Says(Text("actor"))
    ensures Says(Text("verifier")) && Says(Text("receipt"))
  {
    assert "authority"[0] == 'a' && "actor"[0] == 'a' && "verifier"[0] == 'v' && "receipt"[0] == 'r';
  }

  lemma {:induction false} FirstIsOnly(intents: seq<Intent>, intent: Intent)
    requires intent in intents
    requires forall i, j :: i in intents && j in intents && i.digest == j.digest ==> i == j
    ensures Names(intents, intent.digest, intent)
  {
    var found := IntentByDigest(intents, intent.digest);
    IntentByDigestExactly(intents, intent.digest, intent);
  }

  lemma FittingGrantAdmitted(c: Capsule, intent: Intent, now: int)
    requires GenuineCapsule(c) && intent in c.body.selectedIntents
    requires forall i, j :: i in c.body.selectedIntents && j in c.body.selectedIntents && i.digest == j.digest ==>
        i == j
    ensures AdmitGrant(c, Some(GrantFor(c, intent, now)), At(now)).Ok?
  {
    PlainTexts();
    FirstIsOnly(c.body.selectedIntents, intent);
    AdmittedExactly(c, GrantFor(c, intent, now), At(now));
  }

  lemma FittingEvidenceCloses(c: Capsule, a: Admission, now: int)
    requires GenuineCapsule(c) && GenuineAdmission(a) && Some(a.body.capsuleDigest) == c.digest
    requires Within(At(now), a.body.notBefore, a.body.expiresAt)
    ensures CloseExecution(c, a, EvidenceFor(a, now)).Ok?
  {
    PlainTexts();
    ClosedExactly(c, a, EvidenceFor(a, now));
  }

  /** The pipeline is not empty: every selected intent can be granted, admitted and closed. */
  lemma SelectedCanBeClosed(m: Manifest, limit: int, c: Capsule, intent: Intent, now: int)
    returns (a: Admission, cl: Closure)
    requires CapsuleOf(m, limit, c) && intent in c.body.selectedIntents
    ensures AdmitGrant(c, Some(GrantFor(c, intent, now)), At(now)) == Ok(a)
    ensures CloseExecution(c, a, EvidenceFor(a, now)) == Ok(cl)
    ensures cl.intentDigest == intent.digest && cl.subjectSha == intent.body.sha
  {
    ConstructedCapsuleIsSound(m, limit, c);
    FittingGrantAdmitted(c, intent, now);
    a := AdmitGrant(c, Some(GrantFor(c, intent, now)), At(now)).value;
    AdmissionCopiesGrant(c, GrantFor(c, intent, now), At(now), a);
    FittingEvidenceCloses(c, a, now);
    cl := CloseExecution(c, a, EvidenceFor(a, now)).value;
    ClosureCopiesEvidence(c, a, EvidenceFor(a, now), cl);
  }

  /** A closed execution goes back to a component that the manifest required, that could be
      repaired, and all of whose dependencies were ALIVE; the evidence names its exact commit
      and intent; and both the admission and the observation fall inside the granted window. */
  lemma ClosedExecutionWasLawful(m: Manifest, limit: int, c: Capsule, g: Grant, now: TimeField,
                                 a: Admission, e: Evidence, cl: Closure)
    returns (n: string, intent: Intent)
    requires CapsuleOf(m, limit, c)
    requires AdmitGrant(c, Some(g), now) == Ok(a) && CloseExecution(c, a, e) == Ok(cl)
    ensures n in FrontierSet(TableOf(m.components))
    ensures intent in c.body.selectedIntents && intent.body.component == n
    ensures e.subjectSha == Some(TableOf(m.components)[n].sha) && e.intentDigest == Some(OfIntent(intent.body))
    ensures g.notBefore.Some? && g.expiresAt.Some? && Within(now, g.notBefore.value, g.expiresAt.value)
    ensures e.observedAt.Some? && Within(e.observedAt.value, g.notBefore.value, g.expiresAt.value)
    ensures e.exitCode == Some(Exit(0)) && e.postconditionVerified == Some(true)
    ensures ClosureReads(a, e, cl)
  {
    AdmissionCopiesGrant(c, g, now, a);
    ClosureCopiesEvidence(c, a, e, cl);
    intent :| Names(c.body.selectedIntents, a.body.intentDigest, intent) && intent.body.sha == a.body.subjectSha;
    n := intent.body.component;
    SelectedIntent(m, limit, c, intent);
  }

  // ----- Admissions that no grant issued -----

  /** What an admission must be for some grant, used at some time, to have issued it. */
  ghost predicate Issuable(c: Capsule, a: Admission) {
    && GenuineCapsule(c) && GenuineAdmission(a) && Some(a.body.capsuleDigest) == c.digest
    && a.body.scope == "BRCE:VERIFY_REPAIR_ONLY" && Says(Text(a.body.authorityId)) && Says(Text(a.body.actor))
    && Windowed(a.body.issuedAt, a.body.notBefore, a.body.expiresAt)
    && ForIntent(c, a.body.intentDigest, a.body.subjectSha, a.body.action)
  }

  /** Issued no later than the window opens, and the window is not empty. */
  ghost predicate Windowed(issued: TimeField, start: TimeField, end: TimeField) {
    issued.At? && start.At? && end.At? && issued.instant <= start.instant < end.instant
  }

  /** The digest stands for a selected intent of the commit and with the action. */
  ghost predicate ForIntent(c: Capsule, intentDigest: ControlDigest, sha: string, action: string) {
    exists intent :: Names(c.body.selectedIntents, intentDigest, intent) && intent.body.sha == sha &&
                     intent.body.action == action
  }

  /** The grant that an admission says it goes back to. */
  ghost function GrantOf(a: Admission): Grant {
    Grant(Some(Text(a.body.authorityId)), Some(Text(a.body.actor)), Some(a.body.capsuleDigest),
          Some(a.body.subjectSha), Some(a.body.intentDigest), Some(a.body.scope), Some(a.body.issuedAt),
          Some(a.body.notBefore), Some(a.body.expiresAt))
  }

  lemma IssuableIsIssued(c: Capsule, a: Admission)
    requires Issuable(c, a)
    ensures AdmitGrant(c, Some(GrantOf(a)), a.body.notBefore) == Ok(a)
  {
    AdmittedExactly(c, GrantOf(a), a.body.notBefore);
    var admitted := AdmitGrant(c, Some(GrantOf(a)), a.body.notBefore).value;
    AdmissionCopiesGrant(c, GrantOf(a), a.body.notBefore, admitted);
    SameAdmission(c, GrantOf(a), admitted, a);
  }

  lemma NamesOne(intents: seq<Intent>, d: ControlDigest, x: Intent, y: Intent)
    requires Names(intents, d, x) && Names(intents, d, y)
    ensures x == y
  {
  }

  lemma SameAdmission(c: Capsule, g: Grant, a: Admission, b: Admission)
    requires AdmissionReads(c, g, a) && AdmissionReads(c, g, b)
    ensures a == b
  {
    var x :| Names(c.body.selectedIntents, a.body.intentDigest, x) && x.body.action == a.body.action;
    var y :| Names(c.body.selectedIntents, b.body.intentDigest, y) && y.body.action == b.body.action;
    NamesOne(c.body.selectedIntents, a.body.intentDigest, x, y);
  }

  lemma IssuedIsIssuable(c: Capsule, g: Grant, now: TimeField, a: Admission)
    requires AdmitGrant(c, Some(g), now) == Ok(a)
    ensures Issuable(c, a)
  {
    AdmittedExactly(c, g, now);
    AdmissionCopiesGrant(c, g, now, a);
  }

  ghost predicate Issued(c: Capsule, a: Admission) {
    exists g, now :: AdmitGrant(c, Some(g), now) == Ok(a)
  }

  /** Some grant issues an admission if and only if the admission can be checked to name the
      capsule, a selected intent with its commit and action, the scope, an authority and an
      actor, and a window that opens after it was issued and before it closes. */
  lemma IssuedExactly(c: Capsule, a: Admission)
    ensures Issued(c, a) <==> Issuable(c, a)
  {
    if Issuable(c, a) {
      IssuableIsIssued(c, a);
    } else {
      forall g, now ensures AdmitGrant(c, Some(g), now) != Ok(a) {
        if AdmitGrant(c, Some(g), now) == Ok(a) { IssuedIsIssuable(c, g, now, a); }
      }
    }
  }

  /** An admission that carries its own digest and the capsule's, for any intent at all. */
  ghost function SelfSealed(c: Capsule, intentDigest: ControlDigest, sha: string, now: int): Admission
    requires c.digest.Some?
  {
    var body := AdmissionBody("urn:chatman:brce:admission:v1", true, "authority", "actor", "BRCE:VERIFY_REPAIR_ONLY",
                              At(now), At(now), At(now + 1),
                              c.digest.value, sha, intentDigest, "", false);
    Admission(body, Some(OfAdmission(body)))
  }

  /** What closing does not check: it never looks for the intent among the selected ones. For
      every capsule that verifies, and any intent digest and commit, there is an admission
      under which evidence naming them is closed. */
  lemma ClosingNeedsNoGrant(c: Capsule, intentDigest: ControlDigest, sha: string, now: int) returns (cl: Closure)
    requires GenuineCapsule(c)
    ensures var a := SelfSealed(c, intentDigest, sha, now); CloseExecution(c, a, EvidenceFor(a, now)) == Ok(cl)
    ensures cl.intentDigest == intentDigest && cl.subjectSha == sha
    ensures !Issued(c, SelfSealed(c, intentDigest, sha, now)) <==>
              !ForIntent(c, intentDigest, sha, "")
  {
    var a := SelfSealed(c, intentDigest, sha, now);
    PlainTexts();
    FittingEvidenceCloses(c, a, now);
    cl := CloseExecution(c, a, EvidenceFor(a, now)).value;
    ClosureCopiesEvidence(c, a, EvidenceFor(a, now), cl);
    IssuedExactly(c, a);
  }

  /** A closed execution goes back to a selected intent, and with it to a repairable component,
      whenever its admission passes the check that closing leaves out. */
  lemma CheckedClosureWasLawful(m: Manifest, limit: int, c: Capsule, a: Admission, e: Evidence, cl: Closure)
    returns (n: string, intent: Intent)
    requires CapsuleOf(m, limit, c) && Issuable(c, a) && CloseExecution(c, a, e) == Ok(cl)
    ensures n in FrontierSet(TableOf(m.components))
    ensures intent in c.body.selectedIntents && intent.body.component == n
    ensures e.subjectSha == Some(TableOf(m.components)[n].sha) && e.intentDigest == Some(OfIntent(intent.body))
  {
    IssuableIsIssued(c, a);
    n, intent := ClosedExecutionWasLawful(m, limit, c, GrantOf(a), a.body.notBefore, a, e, cl);
  }

  /** A finished release leaves nothing to authorise. */
  lemma DoneAdmitsNoGrant(m: Manifest, limit: int, c: Capsule, grant: Option<Grant>, now: TimeField)
    requires CapsuleOf(m, limit, c) && c.body.done
    ensures AdmitGrant(c, grant, now).Err?
  {
    assert c.body.selectedIntents == [];
  }

  /** A grant fits one capsule only, and what it admits does not depend on when. */
  lemma GrantBindsOneCapsule(c: Capsule, d: Capsule, g: Grant, now: TimeField, later: TimeField)
    requires AdmitGrant(c, Some(g), now).Ok? && AdmitGrant(d, Some(g), later).Ok?
    ensures c == d && AdmitGrant(c, Some(g), now) == AdmitGrant(d, Some(g), later)
  {
  }

  /** Evidence closes one intent under one admission: presented with another admission or
      another capsule, it is refused unless that names the same commit and intent. */
  lemma EvidenceBindsOneIntent(c: Capsule, a: Admission, d: Capsule, b: Admission, e: Evidence)
    requires CloseExecution(c, a, e).Ok? && CloseExecution(d, b, e).Ok?
    ensures a.body.intentDigest == b.body.intentDigest && a.body.subjectSha == b.body.subjectSha
    ensures a == b ==> c == d
  {
  }

  /** Altering anything in a capsule or an admission, but not its digest, is refused. */
  lemma AlteredArtifactRefused(c: Capsule, c': Capsule, a: Admission, a': Admission, e: Evidence, g: Grant,
      now: TimeField)
    requires AdmitGrant(c, Some(g), now) == Ok(a)
    requires c'.digest == c.digest && a'.digest == a.digest
    ensures c' != c ==>
              AdmitGrant(c', Some(g), now).Err? &&
              AdmitGrant(c', Some(g), now).error in {CapsuleTampered, CapsuleSchemaInvalid}
    ensures a' != a ==> CloseExecution(c, a', e).Err?
  {
  }
}
