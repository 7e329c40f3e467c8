/** The DO half of the consequence court: reserve, observe, actuate, observe, commit, replay.
    The store and the world are objects that execution updates; what one call does to them is
    also given as a transition, and runs are sequences of transitions. */
module ConsequenceCourt {
  import opened Prelude
  import opened Text
  import opened HashChain
  import P = Preparation

  datatype Grant = Grant(authorityId: string, subjectSha: string, intentDigest: P.Digest, consequence: string,
                         scope: string, expiresAt: string)

  datatype BrokerAdmission = BrokerAdmission(authorityId: string, scope: string, expiresAt: string,
                                             subjectSha: string, intentDigest: P.Digest)

  datatype Event = Event(subject: string, intentDigest: P.Digest, oStar: P.Digest, frontier: seq<string>,
                         excluded: map<string, P.Exclusion>, selected: string, artifact: P.Digest,
                         verification: P.Digest, broker: BrokerAdmission, precondition: string,
                         requestedConsequence: string, observedPostcondition: string,
                         expectedPostcondition: string, postconditionVerified: bool,
                         executionError: Option<string>, succeeded: bool)

  datatype Stored = Stored(key: string, intentDigest: P.Digest, envelope: Item<Event>)

  datatype Outcome = Outcome(subject: string, selected: string, authorityId: string, intentDigest: P.Digest,
                             receipt: Option<HashChain.Digest<Event>>, alive: bool)

  datatype Refusal =
    | AuthorityConsequenceMismatch
    | SubjectDrift | IntentDrift | ScopeUnsupported | AuthorityIdInvalid | ExpiryInvalid
    | ReceiptCapabilityUnavailable | IdempotencyKeyMissing | IdempotencyConflict
    | PreconditionMismatch
    | ReceiptWithoutReservation | ReceiptIntentDrift | ReceiptRewrite
    | ReceiptNotPersisted | ReservationDrift | ReceiptTampered

  const BRCE_SCOPE := "BRCE:VERIFY_REPAIR_ONLY"
  const RECEIPT_SCHEMA := "urn:chatman:dfcm:receipt:v1"

  // ----- The store as a value, and what its operations do -----

  datatype Store = Store(available: bool, reservations: map<string, P.Digest>, receipts: map<string, Stored>)

  ghost function Reserved(s: Store, key: string, intentDigest: P.Digest): Result<Store, Refusal> {
    if !s.available then Err(ReceiptCapabilityUnavailable)
    else if AllSpace(key) then Err(IdempotencyKeyMissing)
    else if key in s.reservations && s.reservations[key] != intentDigest then Err(IdempotencyConflict)
    else Ok(s.(reservations := s.reservations[key := intentDigest]))
  }

  ghost function Envelope(event: Event): Item<Event> {
    var schema := Some("urn:chatman:dfcm:receipt:v1");
    Item(schema, None, event, Some(OfBody(schema, None, event)))
  }

  ghost function Committed(s: Store, key: string, event: Event): Result<(Store, Stored), Refusal> {
    if key !in s.reservations then Err(ReceiptWithoutReservation)
    else if event.intentDigest != s.reservations[key] then Err(ReceiptIntentDrift)
    else
      var stored := Stored(key, s.reservations[key], Envelope(event));
      if key in s.receipts && s.receipts[key] != stored then Err(ReceiptRewrite)
      else Ok((s.(receipts := s.receipts[key := stored]), stored))
  }

  ghost predicate Persisted(s: Store, stored: Stored) {
    stored.key in s.receipts && s.receipts[stored.key] == stored
  }

  ghost predicate Agrees(s: Store, stored: Stored) {
    stored.key in s.reservations && s.reservations[stored.key] == stored.intentDigest
  }

  ghost function Verified(s: Store, stored: Stored): Option<Refusal> {
    if !Persisted(s, stored) then Some(ReceiptNotPersisted)
    else if !Agrees(s, stored) then Some(ReservationDrift)
    else if !Chained([stored.envelope]) then Some(ReceiptTampered)
    else None
  }

  /** The two-phase receipt store. */
  class ReceiptStore {
    var available: bool
    var reservations: map<string, P.Digest>
    var receipts: map<string, Stored>

    constructor (available: bool)
      ensures Value() == Store(available, map[], map[])
    {
      this.available, reservations, receipts := available, map[], map[];
    }

    function Value(): Store
      reads this
    {
      Store(available, reservations, receipts)
    }

    method Reserve(key: string, intentDigest: P.Digest) returns (refused: Option<Refusal>)
      modifies this`reservations
      ensures match Reserved(old(Value()), key, intentDigest)
              case Ok(s) => refused.None? && Value() == s
              case Err(e) => refused == Some(e) && Value() == old(Value())
    {
      if !available {
        return Some(ReceiptCapabilityUnavailable);
      }
      BlankExactly(key);
      if Blank(key) {
        return Some(IdempotencyKeyMissing);
      }
      if key in reservations && reservations[key] != intentDigest {
        return Some(IdempotencyConflict);
      }
      reservations := reservations[key := intentDigest];
      return None;
    }

    method Commit(key: string, event: Event) returns (r: Result<Stored, Refusal>)
      modifies this`receipts
      ensures match Committed(old(Value()), key, event)
              case Ok(pair) => r == Ok(pair.1) && Value() == pair.0
              case Err(e) => r == Err(e) && Value() == old(Value())
    {
      if key !in reservations {
        return Err(ReceiptWithoutReservation);
      }
      var expected := reservations[key];
      if event.intentDigest != expected {
        return Err(ReceiptIntentDrift);
      }
      var stored := Stored(key, expected, Seal(RECEIPT_SCHEMA, event, None));
      if key in receipts && receipts[key] != stored {
        return Err(ReceiptRewrite);
      }
      receipts := receipts[key := stored];
      return Ok(stored);
    }

    method Verify(stored: Stored) returns (refused: Option<Refusal>)
      ensures refused == Verified(Value(), stored)
    {
      if !(stored.key in receipts && receipts[stored.key] == stored) {
        return Some(ReceiptNotPersisted);
      }
      if !(stored.key in reservations && reservations[stored.key] == stored.intentDigest) {
        return Some(ReservationDrift);
      }
      var replay := ReplayChain([stored.envelope]);
      return if replay.Ok? then None else Some(ReceiptTampered);
    }
  }

  /** The world outside: what the next observations will show and whether the next actuation
      fails is arbitrary. The history of consequences is kept for the proof. */
  class World {
    const shows: nat -> string
    const fails: nat -> Option<string>
    var observed: nat
    var actuated: nat
    ghost var history: seq<string>

    constructor (shows: nat -> string, fails: nat -> Option<string>)
      ensures this.shows == shows && this.fails == fails
      ensures observed == 0 && actuated == 0 && history == []
    {
      this.shows, this.fails := shows, fails;
      observed, actuated, history := 0, 0, [];
    }

    method Observe() returns (state: string)
      modifies this`observed
      ensures state == shows(old(observed)) && observed == old(observed) + 1
    {
      state := shows(observed);
      observed := observed + 1;
    }

    method Actuate(consequence: string) returns (error: Option<string>)
      modifies this`actuated, this`history
      ensures error == fails(old(actuated)) && actuated == old(actuated) + 1
      ensures history == old(history) + [consequence]
    {
      error := fails(actuated);
      actuated := actuated + 1;
      history := history + [consequence];
    }
  }

  // ----- One call -----

  /** What is missing from the authority of a grant, the first thing that is. */
  ghost function Missing(intent: P.Intent, g: Grant): Option<Refusal> {
    if g.subjectSha != intent.body.sha then Some(SubjectDrift)
    else if g.intentDigest != intent.digest then Some(IntentDrift)
    else if g.scope != "BRCE:VERIFY_REPAIR_ONLY" then Some(ScopeUnsupported)
    else if AllSpace(g.authorityId) then Some(AuthorityIdInvalid)
    else if AllSpace(g.expiresAt) then Some(ExpiryInvalid)
    else None
  }

  ghost function Admission(g: Grant): BrokerAdmission {
    BrokerAdmission(g.authorityId, g.scope, g.expiresAt, g.subjectSha, g.intentDigest)
  }

  /** The authority that the actuation of a prepared execution needs: a grant for its
      consequence, its commit and its intent, of the one scope there is, by someone, for a time. */
  ghost predicate Authorised(p: P.Prepared, g: Grant) {
    var authorised :=
      && g.consequence == p.selected.consequence
      && g.subjectSha == p.intent.body.sha && g.intentDigest == p.intent.digest
      && g.scope == "BRCE:VERIFY_REPAIR_ONLY" && !AllSpace(g.authorityId) && !AllSpace(g.expiresAt);
    authorised
  }

  method AdmitDo(intent: P.Intent, g: Grant) returns (r: Result<BrokerAdmission, Refusal>)
    ensures r == match Missing(intent, g) case Some(e) => Err(e) case None => Ok(Admission(g))
  {
    if g.subjectSha != intent.body.sha {
      return Err(SubjectDrift);
    }
    if g.intentDigest != intent.digest {
      return Err(IntentDrift);
    }
    if g.scope != BRCE_SCOPE {
      return Err(ScopeUnsupported);
    }
    BlankExactly(g.authorityId);
    if Blank(g.authorityId) {
      return Err(AuthorityIdInvalid);
    }
    BlankExactly(g.expiresAt);
    if Blank(g.expiresAt) {
      return Err(ExpiryInvalid);
    }
    return Ok(BrokerAdmission(g.authorityId, g.scope, g.expiresAt, g.subjectSha, g.intentDigest));
  }

  ghost function EventOf(p: P.Prepared, broker: BrokerAdmission, before: string, error: Option<string>,
                   after: string): Event
  {
    var ok := error.None? && after == p.request.expectedPostcondition;
    Event(p.request.subject, p.intent.digest, p.oStar, P.Ids(p.frontier), p.excluded, p.selected.id, p.artifact,
          p.verification, broker, before, p.selected.consequence, after, p.request.expectedPostcondition, ok, error, ok)
  }

  ghost function OutcomeOf(p: P.Prepared, stored: Stored): Outcome
    requires stored.envelope.Item?
  {
    var event := stored.envelope.content;
    Outcome(p.request.subject, p.selected.id, event.broker.authorityId, p.intent.digest, stored.envelope.digest,
            event.succeeded)
  }

  /** What the world does during one call: two observations and perhaps an execution error. */
  datatype Turn = Turn(before: string, error: Option<string>, after: string)

  /** One actuation, with the key and the authority it was made under. */
  datatype Actuation = Actuation(key: string, consequence: string, intentDigest: P.Digest, authorityId: string)

  datatype Step = Step(store: Store, actuation: Option<Actuation>, result: Result<Outcome, Refusal>)

  ghost function ReplayStep(s: Store, p: P.Prepared, prior: Stored): Step {
    var refused := Verified(s, prior);
    Step(s, None, if refused.Some? then Err(refused.value)
                  else if prior.envelope.NotAnObject? then Err(ReceiptTampered)
                  else Ok(OutcomeOf(p, prior)))
  }

  ghost function DoStep(s: Store, p: P.Prepared, broker: BrokerAdmission, turn: Turn): Step {
    var key := p.request.idempotencyKey;
    if turn.before != p.request.expectedPrecondition then Step(s, None, Err(PreconditionMismatch))
    else
      var done := Some(Actuation(key, p.selected.consequence, p.intent.digest, broker.authorityId));
      match Committed(s, key, EventOf(p, broker, turn.before, turn.error, turn.after))
      case Err(e) => Step(s, done, Err(e))
      case Ok(pair) =>
        var refused := Verified(pair.0, pair.1);
        Step(pair.0, done, if refused.Some? then Err(refused.value) else Ok(OutcomeOf(p, pair.1)))
  }

  ghost function Transition(s: Store, p: P.Prepared, g: Grant, turn: Turn): Step {
    if g.consequence != p.selected.consequence then Step(s, None, Err(AuthorityConsequenceMismatch))
    else match Missing(p.intent, g)
      case Some(e) => Step(s, None, Err(e))
      case None =>
        match Reserved(s, p.request.idempotencyKey, p.intent.digest)
        case Err(e) => Step(s, None, Err(e))
        case Ok(reserved) =>
          if p.request.idempotencyKey in reserved.receipts
          then ReplayStep(reserved, p, reserved.receipts[p.request.idempotencyKey])
          else DoStep(reserved, p, Admission(g), turn)
  }

  /** A call gets past the gate with authority and a key of its own; otherwise it leaves the
      store as it is. */
  lemma PastTheGate(s: Store, p: P.Prepared, g: Grant, turn: Turn)
    ensures var key, t := p.request.idempotencyKey, Transition(s, p, g, turn);
            var reserved := Reserved(s, key, p.intent.digest);
            if Authorised(p, g) && reserved.Ok?
            then t == if key in reserved.value.receipts
                      then ReplayStep(reserved.value, p, reserved.value.receipts[key])
                      else DoStep(reserved.value, p, Admission(g), turn)
            else t.result.Err? && t == Step(s, None, t.result)
  {
  }

  /** What is reported of a receipt, old or new. */
  method ResultOf(p: P.Prepared, stored: Stored) returns (r: Outcome)
    requires stored.envelope.Item?
    ensures r == OutcomeOf(p, stored)
  {
    match stored.envelope
    case Item(_, _, event, digest) =>
      r := Outcome(p.request.subject, p.selected.id, event.broker.authorityId, p.intent.digest, digest,
                   event.succeeded);
  }

  method ReplayReceipt(p: P.Prepared, store: ReceiptStore, prior: Stored) returns (r: Result<Outcome, Refusal>)
    ensures r == ReplayStep(store.Value(), p, prior).result
  {
    var refused := store.Verify(prior);
    if refused.Some? {
      return Err(refused.value);
    }
    if prior.envelope.NotAnObject? {
      return Err(ReceiptTampered);
    }
    var outcome := ResultOf(p, prior);
    return Ok(outcome);
  }

  method Do(p: P.Prepared, broker: BrokerAdmission, store: ReceiptStore, world: World)
      returns (r: Result<Outcome, Refusal>)
    modifies store, world
    ensures
      var turn := Turn(world.shows(old(world.observed)), world.fails(old(world.actuated)),
          world.shows(old(world.observed) + 1));
      var step := DoStep(old(store.Value()), p, broker, turn);
      && store.Value() == step.store && r == step.result
      && world.history == old(world.history) + (if step.actuation.Some? then [step.actuation.value.consequence] else [])
      && world.actuated == old(world.actuated) + (if step.actuation.Some? then 1 else 0)
  {
    var before := world.Observe();
    if before != p.request.expectedPrecondition {
      return Err(PreconditionMismatch);
    }
    var error := world.Actuate(p.selected.consequence);
    var after := world.Observe();
    var ok := error.None? && after == p.request.expectedPostcondition;
    var ids := seq(|p.frontier|, i requires 0 <= i < |p.frontier| => p.frontier[i].id);
    var event := Event(p.request.subject, p.intent.digest, p.oStar, ids, p.excluded, p.selected.id, p.artifact,
        p.verification, broker, before, p.selected.consequence, after, p.request.expectedPostcondition, ok, error, ok);
    assert event == EventOf(p, broker, before, error, after);
    var committed := store.Commit(p.request.idempotencyKey, event);
    if committed.Err? {
      return Err(committed.error);
    }
    var refused := store.Verify(committed.value);
    if refused.Some? {
      return Err(refused.value);
    }
    var outcome := ResultOf(p, committed.value);
    return Ok(outcome);
  }

  /** One call follows the transition, and the world sees exactly the actuation it reports. */
  method Execute(p: P.Prepared, g: Grant, store: ReceiptStore, world: World) returns (r: Result<Outcome, Refusal>)
    modifies store, world
    ensures
      var turn := Turn(world.shows(old(world.observed)), world.fails(old(world.actuated)),
          world.shows(old(world.observed) + 1));
      var step := Transition(old(store.Value()), p, g, turn);
      && store.Value() == step.store && r == step.result
      && world.history == old(world.history) + (if step.actuation.Some? then [step.actuation.value.consequence] else [])
      && world.actuated == old(world.actuated) + (if step.actuation.Some? then 1 else 0)
    ensures world.actuated > old(world.actuated) ==> Authorised(p, g)
  {
    ghost var s := store.Value();
    ghost var turn := Turn(world.shows(world.observed), world.fails(world.actuated), world.shows(world.observed + 1));
    PastTheGate(s, p, g, turn);
    if g.consequence != p.selected.consequence {
      return Err(AuthorityConsequenceMismatch);
    }
    var broker := AdmitDo(p.intent, g);
    if broker.Err? {
      return Err(broker.error);
    }
    assert Authorised(p, g);
    var unreserved := store.Reserve(p.request.idempotencyKey, p.intent.digest);
    if unreserved.Some? {
      return Err(unreserved.value);
    }
    if p.request.idempotencyKey in store.receipts {
      r := ReplayReceipt(p, store, store.receipts[p.request.idempotencyKey]);
    } else {
      r := Do(p, broker.value, store, world);
    }
  }

  // ----- What one step keeps -----

  /** A receipt that says what the law of the court demands of it. */
  ghost predicate LawfulReceipt(s: Store, key: string)
    requires key in s.receipts
  {
    match s.receipts[key]
    case Stored(name, intentDigest, NotAnObject) => false
    case Stored(name, intentDigest, Item(schema, previous, event, digest)) =>
      && name == key && key in s.reservations && intentDigest == s.reservations[key]
      && Item(schema, previous, event, digest) == Envelope(event)
      && event.intentDigest == intentDigest
      && (event.succeeded <==> event.executionError.None? && event.observedPostcondition == event.expectedPostcondition)
  }

  /** The record of an actuation is the receipt under its key. */
  ghost predicate Receipted(s: Store, a: Actuation) {
    match a
    case Actuation(key, consequence, intentDigest, authorityId) =>
      && key in s.receipts && s.receipts[key].envelope.Item?
      && s.receipts[key].intentDigest == intentDigest
      && s.receipts[key].envelope.content.requestedConsequence == consequence
      && s.receipts[key].envelope.content.broker.authorityId == authorityId
  }

  /** Everything that holds of a store together with the actuations made under it: receipts
      are lawful, each actuation has its receipt and each receipt its one actuation. */
  ghost predicate Sound(s: Store, log: seq<Actuation>) {
    && (forall k :: k in s.receipts ==> LawfulReceipt(s, k))
    && (forall k :: k in s.reservations ==> !AllSpace(k))
    && (forall i :: 0 <= i < |log| ==> Receipted(s, log[i]))
    && (forall i, j :: 0 <= i < j < |log| ==> log[i].key != log[j].key)
    && (forall k :: k in s.receipts ==> exists i :: 0 <= i < |log| && log[i].key == k)
  }

  /** Reservations and receipts are only ever added. */
  ghost predicate Grown(s: Store, t: Store) {
    && (forall k :: k in s.reservations ==> k in t.reservations && t.reservations[k] == s.reservations[k])
    && (forall k :: k in s.receipts ==> k in t.receipts && t.receipts[k] == s.receipts[k])
  }

  ghost function Logged(log: seq<Actuation>, step: Step): seq<Actuation> {
    if step.actuation.Some? then log + [step.actuation.value] else log
  }

  lemma EnvelopeChained(event: Event)
    ensures Chained([Envelope(event)])
  {
    ChainedGrows([], Envelope(event));
    assert [Envelope(event)] == [] + [Envelope(event)];
  }

  lemma GrowthKeepsRecords(s: Store, t: Store, log: seq<Actuation>)
    requires Sound(s, log) && Grown(s, t)
    ensures forall k :: k in s.receipts ==> LawfulReceipt(t, k)
    ensures forall i :: 0 <= i < |log| ==> Receipted(t, log[i])
  {
    forall k | k in s.receipts ensures LawfulReceipt(t, k) { assert LawfulReceipt(s, k); }
    forall i | 0 <= i < |log| ensures Receipted(t, log[i]) { assert Receipted(s, log[i]); }
  }

  lemma ReserveKeepsSound(s: Store, log: seq<Actuation>, key: string, d: P.Digest)
    requires Sound(s, log) && Reserved(s, key, d).Ok?
    ensures Sound(Reserved(s, key, d).value, log) && Grown(s, Reserved(s, key, d).value)
  {
    GrowthKeepsRecords(s, Reserved(s, key, d).value, log);
  }

  lemma LawfulReceiptVerifies(s: Store, key: string)
    requires key in s.receipts && LawfulReceipt(s, key)
    ensures Verified(s, s.receipts[key]).None?
  {
    EnvelopeChained(s.receipts[key].envelope.content);
  }

  /** With the key reserved and no receipt yet, nothing can go wrong after the actuation:
      the commit is accepted and the new receipt verifies. */
  lemma DoCommits(s: Store, p: P.Prepared, broker: BrokerAdmission, turn: Turn)
    requires p.request.idempotencyKey !in s.receipts && turn.before == p.request.expectedPrecondition
    requires p.request.idempotencyKey in s.reservations && s.reservations[p.request.idempotencyKey] == p.intent.digest
    ensures var key := p.request.idempotencyKey;
            var stored := Stored(key, p.intent.digest,
                Envelope(EventOf(p, broker, turn.before, turn.error, turn.after)));
            DoStep(s, p, broker, turn) ==
              Step(s.(receipts := s.receipts[key := stored]),
                   Some(Actuation(key, p.selected.consequence, p.intent.digest, broker.authorityId)),
                   Ok(OutcomeOf(p, stored)))
  {
    EnvelopeChained(EventOf(p, broker, turn.before, turn.error, turn.after));
  }

  lemma LogCovers(s: Store, log: seq<Actuation>, a: Actuation, k: string)
    requires Sound(s, log) && (k in s.receipts || k == a.key)
    ensures exists i :: 0 <= i < |log + [a]| && (log + [a])[i].key == k
  {
    if k in s.receipts {
      var i :| 0 <= i < |log| && log[i].key == k;
      assert (log + [a])[i].key == k;
    } else {
      assert (log + [a])[|log|].key == k;
    }
  }

  lemma NewReceiptKeepsSound(s: Store, log: seq<Actuation>, stored: Stored, a: Actuation)
    requires Sound(s, log) && a.key == stored.key && a.key !in s.receipts
    requires LawfulReceipt(s.(receipts := s.receipts[a.key := stored]), a.key)
    requires Receipted(s.(receipts := s.receipts[a.key := stored]), a)
    ensures Sound(s.(receipts := s.receipts[a.key := stored]), log + [a])
  {
    var t := s.(receipts := s.receipts[a.key := stored]);
    var longer := log + [a];
    GrowthKeepsRecords(s, t, log);
    forall k | k in t.receipts ensures exists i :: 0 <= i < |longer| && longer[i].key == k { LogCovers(s, log, a, k); }
    assert forall i :: 0 <= i < |log| ==> Receipted(s, log[i]) && log[i].key != a.key;
  }

  lemma DoKeepsSound(s: Store, log: seq<Actuation>, p: P.Prepared, broker: BrokerAdmission, turn: Turn)
    requires Sound(s, log) && p.request.idempotencyKey !in s.receipts
    requires p.request.idempotencyKey in s.reservations && s.reservations[p.request.idempotencyKey] == p.intent.digest
    ensures Sound(DoStep(s, p, broker, turn).store, Logged(log, DoStep(s, p, broker, turn)))
    ensures Grown(s, DoStep(s, p, broker, turn).store)
    ensures DoStep(s, p, broker, turn).actuation.Some? <==> DoStep(s, p, broker, turn).result.Ok?
  {
    if turn.before == p.request.expectedPrecondition {
      DoCommits(s, p, broker, turn);
      var step := DoStep(s, p, broker, turn);
      NewReceiptKeepsSound(s, log, step.store.receipts[p.request.idempotencyKey], step.actuation.value);
    }
  }

  /** What every call keeps, whatever the caller presents and the world does. */
  lemma TransitionKeepsSound(s: Store, log: seq<Actuation>, p: P.Prepared, g: Grant, turn: Turn)
    requires Sound(s, log)
    ensures Sound(Transition(s, p, g, turn).store, Logged(log, Transition(s, p, g, turn)))
    ensures Grown(s, Transition(s, p, g, turn).store)
  {
    var key := p.request.idempotencyKey;
    PastTheGate(s, p, g, turn);
    if Authorised(p, g) && Reserved(s, key, p.intent.digest).Ok? {
      var reserved := Reserved(s, key, p.intent.digest).value;
      ReserveKeepsSound(s, log, key, p.intent.digest);
      if key !in reserved.receipts {
        DoKeepsSound(reserved, log, p, Admission(g), turn);
      }
    }
  }

  /** A call that gives a result leaves a committed receipt that verifies; a call that is
      refused has not actuated, and has committed nothing. */
  lemma ResultMeansReceipt(s: Store, log: seq<Actuation>, p: P.Prepared, g: Grant, turn: Turn)
    requires Sound(s, log)
    ensures var key, t := p.request.idempotencyKey, Transition(s, p, g, turn);
            && (t.result.Err? ==> t.actuation.None? && t.store.receipts == s.receipts)
            && (t.result.Ok? ==> key in t.store.receipts && Verified(t.store, t.store.receipts[key]).None?)
  {
    var key := p.request.idempotencyKey;
    PastTheGate(s, p, g, turn);
    if Authorised(p, g) && Reserved(s, key, p.intent.digest).Ok? {
      var reserved := Reserved(s, key, p.intent.digest).value;
      ReserveKeepsSound(s, log, key, p.intent.digest);
      if key in reserved.receipts {
        LawfulReceiptVerifies(reserved, key);
      } else if turn.before == p.request.expectedPrecondition {
        DoKeepsSound(reserved, log, p, Admission(g), turn);
        DoCommits(reserved, p, Admission(g), turn);
        LawfulReceiptVerifies(Transition(s, p, g, turn).store, key);
      }
    }
  }

  /** The exact condition on which a call reaches the world. */
  ghost predicate Reaches(s: Store, p: P.Prepared, g: Grant, turn: Turn) {
    var key := p.request.idempotencyKey;
    && Authorised(p, g) && s.available && !AllSpace(key) && key !in s.receipts
    && (key in s.reservations ==> s.reservations[key] == p.intent.digest)
    && turn.before == p.request.expectedPrecondition
  }

  /** The receipt of a call that reaches the world. */
  ghost function NewReceipt(p: P.Prepared, g: Grant, turn: Turn): Stored {
    var event := EventOf(p, Admission(g), turn.before, turn.error, turn.after);
    Stored(p.request.idempotencyKey, p.intent.digest, Envelope(event))
  }

  lemma ActuatesExactly(s: Store, p: P.Prepared, g: Grant, turn: Turn)
    ensures Transition(s, p, g, turn).actuation.Some? <==> Reaches(s, p, g, turn)
    ensures Transition(s, p, g, turn).store.receipts ==
              if Reaches(s, p, g, turn) then s.receipts[p.request.idempotencyKey := NewReceipt(p, g, turn)]
                  else s.receipts
    ensures Reaches(s, p, g, turn) ==> Transition(s, p, g, turn).result == Ok(OutcomeOf(p, NewReceipt(p, g, turn)))
  {
    if Reaches(s, p, g, turn) {
      var reserved := Reserved(s, p.request.idempotencyKey, p.intent.digest).value;
      DoCommits(reserved, p, Admission(g), turn);
    }
  }

  // ----- Runs -----

  /** What can happen to a store: a call, with whatever the world does during it, or the
      receipt capability coming and going. */
  datatype Happening = Call(p: P.Prepared, g: Grant, turn: Turn) | Availability(available: bool)

  datatype State = State(store: Store, log: seq<Actuation>)

  ghost function Next(st: State, h: Happening): State {
    match h
    case Call(p, g, turn) =>
      var step := Transition(st.store, p, g, turn);
      State(step.store, Logged(st.log, step))
    case Availability(a) => State(st.store.(available := a), st.log)
  }

  ghost function After(hs: seq<Happening>): State {
    if hs == [] then State(Store(true, map[], map[]), []) else Next(After(hs[..|hs| - 1]), hs[|hs| - 1])
  }

  /** After any history at all every actuation has its receipt, every receipt its one
      actuation, and no key has been actuated twice. */
  lemma {:induction false} RunIsSound(hs: seq<Happening>)
    ensures Sound(After(hs).store, After(hs).log)
  {
    if hs == [] {
    } else {
      var before, h := After(hs[..|hs| - 1]), hs[|hs| - 1];
      RunIsSound(hs[..|hs| - 1]);
      if h.Call? {
        TransitionKeepsSound(before.store, before.log, h.p, h.g, h.turn);
      } else {
        assert After(hs).store == before.store.(available := h.available);
        GrowthKeepsRecords(before.store, After(hs).store, before.log);
      }
    }
  }

  lemma NextGrows(st: State, h: Happening)
    requires Sound(st.store, st.log)
    ensures Grown(st.store, Next(st, h).store) && st.log <= Next(st, h).log
  {
    if h.Call? { TransitionKeepsSound(st.store, st.log, h.p, h.g, h.turn); }
  }

  lemma AfterOneMore(hs: seq<Happening>, h: Happening)
    ensures After(hs + [h]) == Next(After(hs), h)
  {
    assert (hs + [h])[..|hs|] == hs;
  }

  lemma {:induction false} RunOnlyGrows(hs: seq<Happening>, more: seq<Happening>)
    ensures Grown(After(hs).store, After(hs + more).store)
    ensures After(hs).log <= After(hs + more).log
    decreases |more|
  {
    if more == [] {
      assert hs + more == hs;
    } else {
      var k := |more| - 1;
      RunOnlyGrows(hs, more[..k]);
      AfterOneMore(hs + more[..k], more[k]);
      assert hs + more == hs + more[..k] + [more[k]];
      RunIsSound(hs + more[..k]);
      NextGrows(After(hs + more[..k]), more[k]);
    }
  }

  /** A call whose key has a receipt for its intent reads that receipt and changes nothing. */
  lemma ReceiptAnswers(s: Store, log: seq<Actuation>, p: P.Prepared, g: Grant, turn: Turn)
    requires Sound(s, log) && s.available && p.request.idempotencyKey in s.receipts
    requires s.reservations[p.request.idempotencyKey] == p.intent.digest
    requires Authorised(p, g)
    ensures Transition(s, p, g, turn) == Step(s, None, Ok(OutcomeOf(p, s.receipts[p.request.idempotencyKey])))
  {
    var key := p.request.idempotencyKey;
    assert LawfulReceipt(s, key);
    LawfulReceiptVerifies(s, key);
    assert s.reservations[key := p.intent.digest] == s.reservations;
  }

  lemma ResultNeedsAuthority(s: Store, p: P.Prepared, g: Grant, turn: Turn)
    requires Transition(s, p, g, turn).result.Ok?
    ensures var key := p.request.idempotencyKey;
            && Authorised(p, g) && s.available && (key in s.reservations ==> s.reservations[key] == p.intent.digest)
            && (key in s.receipts || Reaches(s, p, g, turn))
            && Transition(s, p, g, turn).store.reservations == s.reservations[key := p.intent.digest]
  {
  }

  lemma ResultIsReceipt(s: Store, log: seq<Actuation>, p: P.Prepared, g: Grant, turn: Turn)
    requires Sound(s, log) && Transition(s, p, g, turn).result.Ok?
    ensures var t := Transition(s, p, g, turn);
            var key := p.request.idempotencyKey;
            && key in t.store.receipts && key in t.store.reservations && t.store.reservations[key] == p.intent.digest
            && t.store.receipts[key].envelope.Item? && t.result == Ok(OutcomeOf(p, t.store.receipts[key]))
  {
    var key := p.request.idempotencyKey;
    ResultNeedsAuthority(s, p, g, turn);
    if key in s.receipts {
      assert LawfulReceipt(s, key);
      ReceiptAnswers(s, log, p, g, turn);
    } else {
      ActuatesExactly(s, p, g, turn);
    }
  }

  lemma AnswersAsBefore(t: Store, p: P.Prepared, g: Grant, now: State, later: Turn)
    requires var key := p.request.idempotencyKey;
             && key in t.receipts && t.receipts[key].envelope.Item?
             && key in t.reservations && t.reservations[key] == p.intent.digest
    requires Authorised(p, g)
    requires Sound(now.store, now.log) && Grown(t, now.store)
    ensures Transition(now.store, p, g, later) ==
              Step(now.store, None, if now.store.available then Ok(OutcomeOf(p, t.receipts[p.request.idempotencyKey]))
                                    else Err(ReceiptCapabilityUnavailable))
  {
    if now.store.available { ReceiptAnswers(now.store, now.log, p, g, later); }
  }

  lemma ResultPersists(st: State, p: P.Prepared, g: Grant, turn: Turn, now: State, later: Turn)
    requires Sound(st.store, st.log) && Sound(now.store, now.log)
    requires Transition(st.store, p, g, turn).result.Ok? && Grown(Transition(st.store, p, g, turn).store, now.store)
    ensures var again := Transition(now.store, p, g, later);
            && again.actuation.None? && again.store == now.store
            && again.result == if now.store.available then Transition(st.store, p, g, turn).result
                               else Err(ReceiptCapabilityUnavailable)
  {
    ResultIsReceipt(st.store, st.log, p, g, turn);
    ResultNeedsAuthority(st.store, p, g, turn);
    AnswersAsBefore(Transition(st.store, p, g, turn).store, p, g, now, later);
  }

  /** Once a call has produced a result, the same call produces the same result for ever: it
      reads the receipt, whatever else has happened and whatever the world would do now. Only
      while the receipt capability is away is it refused. In no case does it actuate. */
  lemma ResultIsFinal(hs: seq<Happening>, p: P.Prepared, g: Grant, turn: Turn, more: seq<Happening>, later: Turn)
    requires Transition(After(hs).store, p, g, turn).result.Ok?
    ensures
      var now := After(hs + [Call(p, g, turn)] + more);
      var again := Transition(now.store, p, g, later);
      && again.actuation.None? && again.store == now.store
      && again.result == if now.store.available then Transition(After(hs).store, p, g, turn).result
                         else Err(ReceiptCapabilityUnavailable)
  {
    var called := hs + [Call(p, g, turn)];
    assert called[..|called| - 1] == hs;
    RunIsSound(hs);
    RunOnlyGrows(called, more);
    RunIsSound(called + more);
    ResultPersists(After(hs), p, g, turn, After(called + more), later);
  }

  // ----- What an ALIVE result means -----

  /** A prepared execution whose digest is that of its own content, as preparation leaves it. */
  ghost predicate Consistent(p: P.Prepared) {
    && p.intent.digest == P.OfIntent(p.intent.body)
    && p.intent.body.sha == p.request.subject
    && p.intent.body.consequence == p.selected.consequence
    && p.intent.body.expectedPrecondition == p.request.expectedPrecondition
    && p.intent.body.expectedPostcondition == p.request.expectedPostcondition
  }

  lemma PreparedIsConsistent(q: P.Request, p: P.Prepared)
    requires P.PreparedFrom(q, p)
    ensures Consistent(p)
  {
  }

  /** The receipt tells of an execution of exactly the intent it is filed under. */
  ghost predicate Faithful(stored: Stored) {
    && stored.intentDigest.OfIntent? && stored.envelope.Item?
    && var body, event := stored.intentDigest.intent, stored.envelope.content;
       && event.subject == body.sha && event.precondition == body.expectedPrecondition
       && event.requestedConsequence == body.consequence
       && event.expectedPostcondition == body.expectedPostcondition
  }

  ghost predicate AllConsistent(hs: seq<Happening>) {
    forall h :: h in hs && h.Call? ==> Consistent(h.p)
  }

  lemma NewReceiptIsFaithful(p: P.Prepared, g: Grant, turn: Turn)
    requires Consistent(p) && turn.before == p.request.expectedPrecondition
    ensures Faithful(NewReceipt(p, g, turn))
  {
  }

  lemma {:induction false} ReceiptsAreFaithful(hs: seq<Happening>)
    requires AllConsistent(hs)
    ensures forall k :: k in After(hs).store.receipts ==> Faithful(After(hs).store.receipts[k])
  {
    if hs == [] {
    } else {
      var before, h := After(hs[..|hs| - 1]), hs[|hs| - 1];
      ReceiptsAreFaithful(hs[..|hs| - 1]);
      RunIsSound(hs[..|hs| - 1]);
      assert h in hs;
      if h.Call? {
        ActuatesExactly(before.store, h.p, h.g, h.turn);
        if Reaches(before.store, h.p, h.g, h.turn) { NewReceiptIsFaithful(h.p, h.g, h.turn); }
      }
    }
  }

  /** Whenever any call in any history of prepared executions reports ALIVE, the consequence
      it asked for was requested exactly once under its key, from the precondition it expected,
      without an execution error, and the postcondition it expected was then observed; even if
      this call itself only read the receipt. */
  lemma AliveMeansObserved(hs: seq<Happening>, p: P.Prepared, g: Grant, turn: Turn)
    returns (i: nat, event: Event)
    requires AllConsistent(hs) && Consistent(p)
    requires Transition(After(hs).store, p, g, turn).result.Ok? &&
        Transition(After(hs).store, p, g, turn).result.value.alive
    ensures
      var now := After(hs + [Call(p, g, turn)]);
      && i < |now.log| && now.log[i].key == p.request.idempotencyKey && now.log[i].consequence == p.selected.consequence
      && (forall j :: 0 <= j < |now.log| && now.log[j].key == p.request.idempotencyKey ==> j == i)
      && now.store.receipts[p.request.idempotencyKey].envelope == Envelope(event)
      && event.subject == p.request.subject && event.precondition == p.request.expectedPrecondition
      && event.requestedConsequence == p.selected.consequence && event.executionError.None?
      && event.observedPostcondition == p.request.expectedPostcondition
  {
    var called := hs + [Call(p, g, turn)];
    assert called[..|called| - 1] == hs;
    var now := After(called);
    var key := p.request.idempotencyKey;
    RunIsSound(hs);
    RunIsSound(called);
    ReceiptsAreFaithful(called);
    ResultIsReceipt(After(hs).store, After(hs).log, p, g, turn);
    assert LawfulReceipt(now.store, key) && Faithful(now.store.receipts[key]);
    event := now.store.receipts[key].envelope.content;
    i :| 0 <= i < |now.log| && now.log[i].key == key;
    assert Receipted(now.store, now.log[i]);
  }
}
