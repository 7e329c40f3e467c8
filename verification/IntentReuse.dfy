/** The consequence court protects keys. What that means for intents: exactly when one is
    actuated a second time, and how callers use the court so that none ever is. */
module IntentReuse {
  import opened Prelude
  import opened Text
  import opened ConsequenceCourt
  import P = Preparation

  // ----- Exactly when an intent is actuated again -----

  /** Some receipt of the store is for the intent. */
  ghost predicate IntentReceipted(s: Store, intent: P.Digest) {
    exists k :: k in s.receipts && s.receipts[k].intentDigest == intent
  }

  ghost predicate IntentLogged(log: seq<Actuation>, intent: P.Digest) {
    exists i :: 0 <= i < |log| && log[i].intentDigest == intent
  }

  lemma ReceiptedMeansLogged(s: Store, log: seq<Actuation>, intent: P.Digest)
    requires Sound(s, log)
    ensures IntentReceipted(s, intent) <==> IntentLogged(log, intent)
  {
    if k :| k in s.receipts && s.receipts[k].intentDigest == intent {
      var i :| 0 <= i < |log| && log[i].key == k;
      assert Receipted(s, log[i]);
    }
    if i :| 0 <= i < |log| && log[i].intentDigest == intent {
      assert Receipted(s, log[i]);
    }
  }

  /** A call actuates an intent that has been actuated before if and only if it reaches the
      world while the store holds a receipt for that intent, under whatever key. */
  lemma ReactuatesExactly(s: Store, log: seq<Actuation>, p: P.Prepared, g: Grant, turn: Turn)
    requires Sound(s, log)
    ensures Transition(s, p, g, turn).actuation.Some? && IntentLogged(log, p.intent.digest) <==>
            Reaches(s, p, g, turn) && IntentReceipted(s, p.intent.digest)
  {
    ActuatesExactly(s, p, g, turn);
    ReceiptedMeansLogged(s, log, p.intent.digest);
  }

  ghost predicate IntentsOnce(log: seq<Actuation>) {
    forall i, j :: 0 <= i < j < |log| ==> log[i].intentDigest != log[j].intentDigest
  }

  ghost predicate Repeats(st: State, h: Happening) {
    h.Call? && Reaches(st.store, h.p, h.g, h.turn) && IntentReceipted(st.store, h.p.intent.digest)
  }

  lemma LogOneMore(log: seq<Actuation>, a: Actuation)
    ensures IntentsOnce(log + [a]) <==> IntentsOnce(log) && !IntentLogged(log, a.intentDigest)
  {
    var longer := log + [a];
    if IntentsOnce(longer) {
      forall i | 0 <= i < |log| ensures log[i].intentDigest != a.intentDigest {
        assert longer[i].intentDigest != longer[|log|].intentDigest;
      }
      forall i, j | 0 <= i < j < |log| ensures log[i].intentDigest != log[j].intentDigest {
        assert longer[i].intentDigest != longer[j].intentDigest;
      }
    }
  }

  lemma ActuationOf(s: Store, p: P.Prepared, g: Grant, turn: Turn)
    ensures var a := Transition(s, p, g, turn).actuation;
            a.Some? ==> a.value == Actuation(p.request.idempotencyKey, p.selected.consequence, p.intent.digest,
                                             g.authorityId)
  {
  }

  lemma StepRepeats(st: State, h: Happening)
    requires Sound(st.store, st.log)
    ensures IntentsOnce(Next(st, h).log) <==> IntentsOnce(st.log) && !Repeats(st, h)
  {
    if h.Call? {
      ReactuatesExactly(st.store, st.log, h.p, h.g, h.turn);
      ActuatesExactly(st.store, h.p, h.g, h.turn);
      ActuationOf(st.store, h.p, h.g, h.turn);
      var a := Transition(st.store, h.p, h.g, h.turn).actuation;
      if a.Some? { LogOneMore(st.log, a.value); }
    }
  }

  ghost predicate SomeRepeat(hs: seq<Happening>) {
    exists i :: 0 <= i < |hs| && Repeats(After(hs[..i]), hs[i])
  }

  lemma PrefixOfPrefix(hs: seq<Happening>, i: nat)
    requires i < |hs| - 1
    ensures hs[..|hs| - 1][..i] == hs[..i] && hs[..|hs| - 1][i] == hs[i]
  {
  }

  lemma RepeatsSoFar(hs: seq<Happening>)
    requires hs != []
    ensures var k := |hs| - 1; SomeRepeat(hs) <==> SomeRepeat(hs[..k]) || Repeats(After(hs[..k]), hs[k])
  {
    var k := |hs| - 1;
    if i: nat :| i < |hs| && Repeats(After(hs[..i]), hs[i]) {
      if i < k {
        PrefixOfPrefix(hs, i);
        assert Repeats(After(hs[..k][..i]), hs[..k][i]);
      }
    }
    if i: nat :| i < k && Repeats(After(hs[..k][..i]), hs[..k][i]) {
      PrefixOfPrefix(hs, i);
      assert Repeats(After(hs[..i]), hs[i]);
    }
  }

  /** Over a whole history: no intent is actuated twice if and only if no call reaches the
      world with an intent that the store then has a receipt for. */
  lemma {:induction false} IntentsOnceExactly(hs: seq<Happening>)
    ensures IntentsOnce(After(hs).log) <==> !SomeRepeat(hs)
  {
    if hs == [] {
      assert After(hs).log == [];
    } else {
      var k := |hs| - 1;
      IntentsOnceExactly(hs[..k]);
      RunIsSound(hs[..k]);
      StepRepeats(After(hs[..k]), hs[k]);
      RepeatsSoFar(hs);
    }
  }

  // ----- How to be safe -----

  /** Calls for the same intent use the same key. */
  ghost predicate OneKeyPerIntent(hs: seq<Happening>) {
    forall i, j :: 0 <= i < |hs| && 0 <= j < |hs| && hs[i].Call? && hs[j].Call? &&
                   hs[i].p.intent.digest == hs[j].p.intent.digest
      ==> hs[i].p.request.idempotencyKey == hs[j].p.request.idempotencyKey
  }

  /** The call asks for the actuation: under its key, for its intent and its consequence, with a
      grant by its authority for just that intent, consequence and commit. */
  ghost predicate IsCallFor(h: Happening, a: Actuation) {
    match h
    case Availability(_) => false
    case Call(p, g, turn) =>
      && p.request.idempotencyKey == a.key && p.intent.digest == a.intentDigest
      && p.selected.consequence == a.consequence && turn.before == p.request.expectedPrecondition
      && g.intentDigest == a.intentDigest && g.consequence == a.consequence && g.subjectSha == p.intent.body.sha
      && g.scope == "BRCE:VERIFY_REPAIR_ONLY" && g.authorityId == a.authorityId
      && !AllSpace(g.authorityId) && !AllSpace(g.expiresAt)
  }

  /** Every actuation was asked for by a call that had the authority for it. */
  lemma {:induction false} ActuationWasCalledFor(hs: seq<Happening>, i: nat) returns (c: nat)
    requires i < |After(hs).log|
    ensures c < |hs| && IsCallFor(hs[c], After(hs).log[i])
  {
    assert hs != [];
    var k := |hs| - 1;
    var before := After(hs[..k]);
    if i < |before.log| {
      c := ActuationWasCalledFor(hs[..k], i);
      assert After(hs).log[i] == before.log[i];
    } else {
      c := k;
      ActuatesExactly(before.store, hs[k].p, hs[k].g, hs[k].turn);
      ActuationOf(before.store, hs[k].p, hs[k].g, hs[k].turn);
    }
  }

  /** Callers that never present one intent under two keys never have it actuated twice. */
  lemma OneKeyOneActuation(hs: seq<Happening>)
    requires OneKeyPerIntent(hs)
    ensures IntentsOnce(After(hs).log)
  {
    var log := After(hs).log;
    RunIsSound(hs);
    forall i, j | 0 <= i < j < |log| ensures log[i].intentDigest != log[j].intentDigest {
      var c := ActuationWasCalledFor(hs, i);
      var d := ActuationWasCalledFor(hs, j);
      assert log[i].key != log[j].key;
    }
  }

  // ----- A second key -----

  ghost function Rekeyed(p: P.Prepared, key: string): P.Prepared {
    p.(request := p.request.(idempotencyKey := key))
  }

  lemma CallActuates(st: State, p: P.Prepared, g: Grant, turn: Turn)
    requires Reaches(st.store, p, g, turn)
    ensures var key, next := p.request.idempotencyKey, Next(st, Call(p, g, turn));
            && next.log == st.log + [Actuation(key, p.selected.consequence, p.intent.digest, g.authorityId)]
            && next.store.available && next.store.reservations == st.store.reservations[key := p.intent.digest]
            && next.store.receipts.Keys == st.store.receipts.Keys + {key}
  {
    ActuatesExactly(st.store, p, g, turn);
    var reserved := Reserved(st.store, p.request.idempotencyKey, p.intent.digest).value;
    DoCommits(reserved, p, Admission(g), turn);
  }

  /** A key under which the intent may still reach the world. */
  ghost predicate Open(s: Store, key: string, intent: P.Digest) {
    !AllSpace(key) && key !in s.receipts && (key in s.reservations ==> s.reservations[key] == intent)
  }

  lemma ReachesRekeyed(s: Store, p: P.Prepared, g: Grant, key: string, later: Turn)
    requires Authorised(p, g) && s.available
    ensures Reaches(s, Rekeyed(p, key), g, later) <==>
              Open(s, key, p.intent.digest) && later.before == p.request.expectedPrecondition
  {
    assert Authorised(Rekeyed(p, key), g);
  }

  lemma OpenAfter(s: Store, t: Store, used: string, intent: P.Digest, key: string)
    requires t.reservations == s.reservations[used := intent] && t.receipts.Keys == s.receipts.Keys + {used}
    ensures Open(t, key, intent) <==> key != used && Open(s, key, intent)
  {
  }

  /** After one actuation the same intent under the same grant is actuated again if and only if
      it is presented under another open key and the world shows its precondition again. */
  lemma SecondKeyExactly(hs: seq<Happening>, p: P.Prepared, g: Grant, turn: Turn, key: string, later: Turn)
    requires Reaches(After(hs).store, p, g, turn)
    ensures var once := hs + [Call(p, g, turn)];
            var again := Transition(After(once).store, Rekeyed(p, key), g, later).actuation;
            && |After(once).log| == |After(hs).log| + 1
            && (again.Some? <==> key != p.request.idempotencyKey && Open(After(hs).store, key, p.intent.digest) &&
                                 later.before == p.request.expectedPrecondition)
            && (again.Some? ==> again.value.intentDigest == After(once).log[|After(hs).log|].intentDigest)
  {
    var once := hs + [Call(p, g, turn)];
    assert once[..|once| - 1] == hs;
    CallActuates(After(hs), p, g, turn);
    OpenAfter(After(hs).store, After(once).store, p.request.idempotencyKey, p.intent.digest, key);
    ReachesRekeyed(After(once).store, p, g, key, later);
    ActuatesExactly(After(once).store, Rekeyed(p, key), g, later);
    ActuationOf(After(once).store, Rekeyed(p, key), g, later);
  }

  // ----- It does happen -----

  /** The grant that fits a prepared execution. */
  ghost function FittingGrant(p: P.Prepared, authorityId: string): Grant {
    Grant(authorityId, p.intent.body.sha, p.intent.digest, p.selected.consequence, "BRCE:VERIFY_REPAIR_ONLY", "bounded")
  }

  lemma NotBlank(s: string)
    requires s != "" && !IsSpace(s[0]) && !IsSpace(s[|s| - 1])
    ensures !Blank(s) && !AllSpace(s)
  {
  }

  /** Whatever has been prepared can be actuated: as the first call, under any key that is not
      blank, with a fitting grant, when the world shows the precondition. */
  lemma FirstCallReaches(p: P.Prepared, authorityId: string, turn: Turn)
    requires !AllSpace(p.request.idempotencyKey) && !AllSpace(authorityId)
    requires turn.before == p.request.expectedPrecondition
    ensures Reaches(After([]).store, p, FittingGrant(p, authorityId), turn)
  {
    NotBlank("bounded");
  }

  const CHOICE := P.Candidate("candidate:a", "deployed", true, 30, true, true, false, [])

  /** A plain request about a commit: one reversible candidate, one observation, one proof. */
  ghost function SampleRequest(sha: string, key: string): P.Request {
    P.Request(sha, "apply", ["planned"], [CHOICE], CHOICE.id, key, "planned", "deployed", true, ["passed"])
  }

  ghost function SamplePrepared(sha: string, key: string): P.Prepared {
    var q := SampleRequest(sha, key);
    var oStar := P.OfObservation(sha, P.Facts(q.observations));
    var artifact := P.OfArtifact(sha, oStar, CHOICE.id, CHOICE.consequence, CHOICE.evidence);
    var verification := P.OfVerification(artifact, P.Facts(q.verificationEvidence));
    var body := P.IntentBody(CHOICE.id, sha, CHOICE.consequence, oStar, P.Ids([CHOICE]), map[], artifact,
                             verification, "planned", "deployed");
    P.Prepared(q, oStar, [CHOICE], map[], CHOICE, artifact, verification, P.Intent(body, P.OfIntent(body)))
  }

  lemma SampleIsPrepared(sha: string, key: string)
    requires IsSha40(sha)
    ensures P.Preparable(SampleRequest(sha, key))
    ensures P.PreparedFrom(SampleRequest(sha, key), SamplePrepared(sha, key))
  {
    NotBlank("apply");
    NotBlank("deployed");
    NotBlank("planned");
    NotBlank("passed");
    assert "planned" in SampleRequest(sha, key).observations;
    assert "passed" in SampleRequest(sha, key).verificationEvidence;
    assert CHOICE.id[..|P.PREFIX|] == P.PREFIX;
    assert CHOICE in SampleRequest(sha, key).candidates;
  }

  /** So the same prepared execution under two keys is actuated twice. */
  lemma TwoKeysTwoActuations(p: P.Prepared, authorityId: string, turn: Turn, key: string)
    requires !AllSpace(p.request.idempotencyKey) && !AllSpace(key) && key != p.request.idempotencyKey
    requires !AllSpace(authorityId)
    requires turn.before == p.request.expectedPrecondition
    ensures var g := FittingGrant(p, authorityId);
            var log := After([Call(p, g, turn), Call(Rekeyed(p, key), g, turn)]).log;
            |log| == 2 && log[0].intentDigest == log[1].intentDigest && log[0].key != log[1].key
  {
    var g := FittingGrant(p, authorityId);
    var hs := [Call(p, g, turn), Call(Rekeyed(p, key), g, turn)];
    FirstCallReaches(p, authorityId, turn);
    CallActuates(After([]), p, g, turn);
    assert hs[..1] == [Call(p, g, turn)] && hs[..1][..0] == [];
    assert After(hs[..1]) == Next(After([]), hs[0]);
    ActuatesExactly(After(hs[..1]).store, Rekeyed(p, key), g, turn);
    CallActuates(After(hs[..1]), Rekeyed(p, key), g, turn);
    assert After(hs) == Next(After(hs[..1]), hs[1]);
  }

  lemma SampleRekeyed(sha: string, key: string, other: string)
    ensures Rekeyed(SamplePrepared(sha, key), other) == SamplePrepared(sha, other)
  {
  }

  /** A concrete input: a plain request, presented under two keys, is prepared both times and
      its one intent is actuated twice. */
  lemma IntentActuatedTwice(sha: string, key: string, other: string)
    requires IsSha40(sha) && !AllSpace(key) && !AllSpace(other) && key != other
    ensures var p, o := SamplePrepared(sha, key), SamplePrepared(sha, other);
            var g, turn := FittingGrant(p, "authority"), Turn("planned", None, "deployed");
            && P.PreparedFrom(SampleRequest(sha, key), p) && P.PreparedFrom(SampleRequest(sha, other), o)
            && !IntentsOnce(After([Call(p, g, turn), Call(o, g, turn)]).log)
  {
    SampleIsPrepared(sha, key);
    SampleIsPrepared(sha, other);
    NotBlank("authority");
    SampleRekeyed(sha, key, other);
    TwoKeysTwoActuations(SamplePrepared(sha, key), "authority", Turn("planned", None, "deployed"), other);
  }
}
