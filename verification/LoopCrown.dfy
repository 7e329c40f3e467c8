/** The autonomous-loop crown: ten terms judged over the records of all lanes. The accumulating
    evaluation is proved to report exactly the grounds there are. Records have passed validation, so fields that
    validation guarantees are plain; everything else may be missing. Lists of reasons are
    modelled as sets. */
module LoopCrown {
  import opened Prelude
  import opened Text
  import opened DefectRouting

  const TERMS: set<Term> := {LOOP, CAUSALITY, AUTHORITY, RECEIPTS, RECOVERY, PROVIDERS, OCEL, PROCESS, STRESS, REPLAY}

  const CHAIN_STAGES: set<string> := {"Receipt[n]", "Reobserve[n+1]", "Frontier[n+1]", "WorkOrder[n+1]"}
  const OBJECT_TYPES: set<string> := {"Episode", "WorkOrder", "Authority", "Receipt"}
  const EVENT_CLASSES: set<string> := {"episode.start", "execution.start", "receipt.persist", "verify"}
  const RECOVERY_VIAS: set<string> := {"replan", "reissue", "provider.replace"}

  datatype Phase = PreEpoch | PostEpochExecution

  const FIELDS: set<Field> :=
    {WorkOrderId, Provider, ProviderExecutionId, OriginAuthority, ExitStatus, ReplayBinding, Consequence}

  /** A receipt as recorded: the text fields it has, or not an object at all. */
  datatype Receipt = Receipt(fields: map<Field, string>) | NotAReceipt

  datatype Recovery = Recovery(to: Option<string>, via: Option<string>, humanEdges: Option<int>) | NotARecovery

  datatype Repo = Repo(startSha: string, finalSha: string, commits: seq<string>, readOnly: bool)

  const AUTHORITY_FAILURE := "AUTHORITY_FAILURE"

  /** What holds a lane up, by its type. */
  datatype Blocker = Blocker(kind: string, detail: string)

  datatype Record = Record(standing: string, humanEdges: seq<Phase>, demonstrated: bool, iterations: nat,
                           chain: set<string>, receipts: seq<Receipt>, providerReplaceAdmitted: bool,
                           recovery: seq<Recovery>, blockers: seq<Blocker>, stressResult: string,
                           objectTypes: set<string>, eventClasses: set<string>, eventCount: nat,
                           origin: string, violations: seq<string>, repos: seq<Repo>)

  datatype Reason =
    | NoLaneRecord | LaneAbsent(lane: string)
    | TaintedRecurrence(lane: string) | AutonomousTainted(lane: string) | AutonomousUndemonstrated(lane: string)
    | NoRecurrence
    | OriginUndeclared(lane: string) | Violation(lane: string, what: string) | TypedBlock(lane: string, detail: string)
    | Unreceipted(lane: string) | Defective(lane: string, index: nat, defect: Defect)
    | RecoveryMalformed(lane: string, index: nat) | NoRecovery
    | NoProvider | InsufficientDiversity
    | OcelIncomplete(lane: string) | Unchanged(lane: string, index: nat) | NoStressPass

  datatype Finding = Finding(term: Term, reason: Reason)

  datatype Refusal = ProviderNeutrality(lane: string, index: nat)

  // ----- What a record shows -----

  predicate Tainted(rec: Record) {
    PostEpochExecution in rec.humanEdges
  }

  predicate AutonomyClass(rec: Record) {
    rec.demonstrated && rec.iterations >= 2 && CHAIN_STAGES <= rec.chain && !Tainted(rec)
  }

  predicate Actuated(rec: Record) {
    exists i :: 0 <= i < |rec.repos| && rec.repos[i].commits != []
  }

  predicate Missing(r: Receipt, f: Field)
    requires r.Receipt?
  {
    f !in r.fields || Blank(r.fields[f])
  }

  /** A verifier name, a colon, and a target without white space. */
  predicate BindingShaped(s: string) {
    exists i :: 0 < i < |s| - 1 && s[i] == ':' && (forall k :: 0 <= k < i ==> NameChar(s[k])) &&
                (forall k :: i < k < |s| ==> !IsSpace(s[k]))
  }

  predicate HasDefect(r: Receipt, d: Defect) {
    match d
    case NotObject => r.NotAReceipt?
    case MissingField(f) => r.Receipt? && Missing(r, f)
    case BindingShape =>
      r.Receipt? && ReplayBinding in r.fields && r.fields[ReplayBinding] != "" &&
          !BindingShaped(r.fields[ReplayBinding])
  }

  /** The work order names the provider, in whatever case. */
  predicate EmbedsProvider(r: Receipt) {
    r.Receipt? && Provider in r.fields && r.fields[Provider] != "" && WorkOrderId in r.fields &&
    Contains(Lower(r.fields[WorkOrderId]), Lower(r.fields[Provider]))
  }

  /** The binding that a rendered defect shows. */
  function Shown(r: Receipt): string {
    if r.Receipt? && ReplayBinding in r.fields then r.fields[ReplayBinding] else ""
  }

  predicate SelfRecovered(r: Recovery) {
    r.Recovery? && r.to == Some("success") && r.via.Some? && r.via.value in RECOVERY_VIAS && r.humanEdges == Some(0)
  }

  predicate OcelComplete(rec: Record) {
    OBJECT_TYPES <= rec.objectTypes && EVENT_CLASSES <= rec.eventClasses && rec.eventCount >= 1
  }

  predicate Idle(repo: Repo) {
    repo.startSha == repo.finalSha && repo.commits == [] && !repo.readOnly
  }

  function ProvidersIn(rec: Record): set<string> {
    set r | r in rec.receipts && r.Receipt? && Provider in r.fields && r.fields[Provider] != "" :: r.fields[Provider]
  }

  // ----- The same, on the fields -----

  ghost predicate EventsSound(rec: Record) {
    && {"Episode", "WorkOrder", "Authority", "Receipt"} <= rec.objectTypes
    && {"episode.start", "execution.start", "receipt.persist", "verify"} <= rec.eventClasses
    && rec.eventCount >= 1
  }

  /** The lane has recovered to success by one of the three ways and without a human. */
  ghost predicate Recovers(rec: Record) {
    exists via :: via in {"replan", "reissue", "provider.replace"} &&
                  Recovery(Some("success"), Some(via), Some(0)) in rec.recovery
  }

  ghost predicate HasCommitted(rec: Record) {
    exists repo :: repo in rec.repos && repo.commits != []
  }

  /** Nothing has changed, and nothing was meant not to. */
  ghost predicate Unmoved(repo: Repo) {
    repo.startSha == repo.finalSha && repo.commits == [] && !repo.readOnly
  }

  lemma SelfRecoveredExactly(rec: Record)
    ensures (exists r :: r in rec.recovery && SelfRecovered(r)) <==> Recovers(rec)
  {
    if r :| r in rec.recovery && SelfRecovered(r) {
      assert r == Recovery(Some("success"), Some(r.via.value), Some(0));
    }
    if via :| via in {"replan", "reissue", "provider.replace"} &&
              Recovery(Some("success"), Some(via), Some(0)) in rec.recovery {
      assert SelfRecovered(Recovery(Some("success"), Some(via), Some(0)));
    }
  }

  lemma ActuatedExactly(rec: Record)
    ensures Actuated(rec) <==> HasCommitted(rec)
  {
    if i :| 0 <= i < |rec.repos| && rec.repos[i].commits != [] { assert rec.repos[i] in rec.repos; }
  }

  // ----- The grounds of each finding -----

  type Lanes = map<string, Option<Record>>

  function Present(records: Lanes): map<string, Record> {
    map lane | lane in records && records[lane].Some? :: records[lane].value
  }

  function Absent(records: Lanes): set<string> {
    set lane | lane in records && records[lane].None?
  }

  function Providers(present: map<string, Record>): set<string> {
    set lane, p | lane in present && p in ProvidersIn(present[lane]) :: p
  }

  /** What the record of one lane gives grounds for. */
  ghost predicate OnLane(lane: string, rec: Record, f: Finding) {
    match f.reason
    case TaintedRecurrence(l) => f.term == LOOP && l == lane && PostEpochExecution in rec.humanEdges && rec.demonstrated
    case AutonomousTainted(l) => 
      f.term == CAUSALITY && l == lane && PostEpochExecution in rec.humanEdges && rec.standing == "AUTONOMOUS"
    case AutonomousUndemonstrated(l) =>
      f.term == CAUSALITY && l == lane && PostEpochExecution !in rec.humanEdges && rec.standing == "AUTONOMOUS" &&
      !rec.demonstrated
    case OriginUndeclared(l) => f.term == AUTHORITY && l == lane && rec.origin == ""
    case Violation(l, what) => f.term == AUTHORITY && l == lane && what in rec.violations
    case TypedBlock(l, detail) => f.term == AUTHORITY && l == lane && Blocker(AUTHORITY_FAILURE, detail) in rec.blockers
    case Unreceipted(l) => f.term == RECEIPTS && l == lane && HasCommitted(rec) && rec.receipts == []
    case Defective(l, i, d) =>
      l == lane && i < |rec.receipts| && HasDefect(rec.receipts[i], d) &&
      f.term == Charged(lane, d)
    case RecoveryMalformed(l, i) => f.term == RECOVERY && l == lane && i < |rec.recovery| &&
        rec.recovery[i].NotARecovery?
    case OcelIncomplete(l) => f.term == OCEL && l == lane && !EventsSound(rec)
    case Unchanged(l, i) => f.term == PROCESS && l == lane && i < |rec.repos| && Unmoved(rec.repos[i])
    case _ => false
  }

  predicate SomeAutonomy(present: map<string, Record>) {
    exists lane :: lane in present && AutonomyClass(present[lane])
  }

  ghost predicate SomeRecovery(present: map<string, Record>) {
    exists lane :: lane in present && Recovers(present[lane])
  }

  predicate SomeReplacement(present: map<string, Record>) {
    exists lane :: lane in present && present[lane].providerReplaceAdmitted
  }

  predicate SomeStress(present: map<string, Record>) {
    exists lane :: lane in present && present[lane].stressResult == "PASS"
  }

  /** What only all records together give grounds for. */
  ghost predicate Overall(present: map<string, Record>, f: Finding) {
    match f.reason
    case NoRecurrence => f.term == LOOP && !SomeAutonomy(present)
    case NoRecovery => f.term == RECOVERY && !SomeRecovery(present)
    case NoProvider => f.term == PROVIDERS && Providers(present) == {}
    case InsufficientDiversity => f.term == PROVIDERS && |Providers(present)| < 2 && !SomeReplacement(present)
    case NoStressPass => f.term == STRESS && !SomeStress(present)
    case _ => false
  }

  /** A finding is due exactly in these cases, and in no order of lanes in particular. */
  ghost predicate Due(records: Lanes, f: Finding) {
    var present := Present(records);
    if present == map[] then f.reason == NoLaneRecord
    else
      || (exists lane :: lane in present && OnLane(lane, present[lane], f))
      || (f.reason.LaneAbsent? && f.reason.lane in Absent(records) && f.term in {LOOP, RECOVERY, PROVIDERS, STRESS})
      || Overall(present, f)
  }

  predicate Refusable(records: Lanes) {
    exists lane, r :: lane in Present(records) && r in Present(records)[lane].receipts && EmbedsProvider(r)
  }

  // ----- The evaluation -----

  lemma EveryTerm(t: Term)
    ensures t in TERMS
  {
    match t {
      case LOOP =>
      case CAUSALITY =>
      case AUTHORITY =>
      case RECEIPTS =>
      case RECOVERY =>
      case PROVIDERS =>
      case OCEL =>
      case PROCESS =>
      case STRESS =>
      case REPLAY =>
    }
  }

  /** The table of terms that the evaluation fills in. */
  class Board {
    var passed: set<Term>
    var found: set<Finding>

    constructor ()
      ensures Valid() && found == {}
    {
      passed, found := TERMS, {};
      new;
      forall t ensures t in passed { EveryTerm(t); }
    }

    /** A term has failed exactly when a reason is recorded for it. */
    ghost predicate Valid()
      reads this
    {
      forall t :: t in passed <==> forall f :: f in found ==> f.term != t
    }

    method Fail(term: Term, reason: Reason)
      requires Valid()
      modifies this
      ensures Valid() && found == old(found) + {Finding(term, reason)}
    {
      passed := passed - {term};
      found := found + {Finding(term, reason)};
    }

    method FailWhen(condition: bool, term: Term, reason: Reason)
      requires Valid()
      modifies this
      ensures Valid() && found == old(found) + if condition then {Finding(term, reason)} else {}
    {
      if condition {
        Fail(term, reason);
      }
    }
  }

  function AllDefects(): set<Defect> {
    {NotObject, BindingShape} + set f | f in FIELDS :: MissingField(f)
  }

  function DefectsOf(r: Receipt): set<Defect> {
    set d | d in AllDefects() && HasDefect(r, d)
  }

  lemma DefectsComplete(d: Defect)
    ensures d in AllDefects()
  {
    if d.MissingField? {
      match d.field {
        case WorkOrderId =>
        case Provider =>
        case ProviderExecutionId =>
        case OriginAuthority =>
        case ExitStatus =>
        case ReplayBinding =>
        case Consequence =>
      }
    }
  }

  /** The defects of the receipts of one lane; a receipt whose work order names its provider
      refuses the whole evaluation. */
  method ReceiptDefects(lane: string, rec: Record, board: Board) returns (refused: Option<Refusal>)
    requires board.Valid()
    modifies board
    ensures refused.Some? <==> exists r :: r in rec.receipts && EmbedsProvider(r)
    ensures board.Valid()
    ensures refused.None? ==> forall f :: f in board.found <==>
              f in old(board.found) || (f.reason.Defective? && OnLane(lane, rec, f))
  {
    for i := 0 to |rec.receipts|
      invariant board.Valid()
      invariant forall k :: 0 <= k < i ==> !EmbedsProvider(rec.receipts[k])
      invariant forall f :: f in board.found <==>
                  f in old(board.found) || (f.reason.Defective? && f.reason.index < i && OnLane(lane, rec, f))
    {
      assert rec.receipts[i] in rec.receipts;
      ghost var before := board.found;
      var todo := DefectsOf(rec.receipts[i]);
      ghost var all := todo;
      while todo != {}
        invariant board.Valid() && todo <= all
        invariant forall f :: f in board.found <==>
                    f in before || (f.reason.Defective? && f.reason.lane == lane && f.reason.index == i &&
                                    f.reason.defect in all - todo &&
                                        f.term == Charged(lane, f.reason.defect))
        decreases todo
      {
        var d :| d in todo;
        var term := Route(lane, i, d, Shown(rec.receipts[i]));
        board.Fail(term, Defective(lane, i, d));
        todo := todo - {d};
      }
      forall d ensures d in all <==> HasDefect(rec.receipts[i], d) { DefectsComplete(d); }
      if EmbedsProvider(rec.receipts[i]) {
        return Some(ProviderNeutrality(lane, i));
      }
    }
    return None;
  }

  /** The pass of the evaluation that looks for a reason. */
  datatype Pass = Causal | Authorised | Recovered | Processed | OverAll

  function PassOf(r: Reason): Pass {
    match r
    case TaintedRecurrence(_) => Causal
    case AutonomousTainted(_) => Causal
    case AutonomousUndemonstrated(_) => Causal
    case OriginUndeclared(_) => Authorised
    case Violation(_, _) => Authorised
    case TypedBlock(_, _) => Authorised
    case Unreceipted(_) => Authorised
    case Defective(_, _, _) => Authorised
    case RecoveryMalformed(_, _) => Recovered
    case OcelIncomplete(_) => Processed
    case Unchanged(_, _) => Processed
    case _ => OverAll
  }

  /** After a pass over one lane the board has just the findings that lane gives grounds for. */
  ghost predicate Adds(before: set<Finding>, after: set<Finding>, pass: Pass, lane: string, rec: Record) {
    forall f :: f in after <==> f in before || (PassOf(f.reason) == pass && OnLane(lane, rec, f))
  }

  method CausalPass(lane: string, rec: Record, board: Board)
    requires board.Valid()
    modifies board
    ensures board.Valid() && Adds(old(board.found), board.found, Causal, lane, rec)
  {
    var tainted := Tainted(rec);
    board.FailWhen(tainted && rec.demonstrated, LOOP, TaintedRecurrence(lane));
    board.FailWhen(tainted && rec.standing == "AUTONOMOUS", CAUSALITY, AutonomousTainted(lane));
    board.FailWhen(!tainted && rec.standing == "AUTONOMOUS" && !rec.demonstrated, CAUSALITY,
                   AutonomousUndemonstrated(lane));
  }

  method TypedBlocks(lane: string, rec: Record, board: Board)
    requires board.Valid()
    modifies board
    ensures board.Valid()
    ensures forall f :: f in board.found <==>
              f in old(board.found) || (f.reason.TypedBlock? && OnLane(lane, rec, f))
  {
    for i := 0 to |rec.blockers|
      invariant board.Valid()
      invariant forall f :: f in board.found <==>
                  f in old(board.found) || (f.term == AUTHORITY && f.reason.TypedBlock? && f.reason.lane == lane &&
                      Blocker(AUTHORITY_FAILURE, f.reason.detail) in rec.blockers[..i])
    {
      assert rec.blockers[..i + 1] == rec.blockers[..i] + [rec.blockers[i]];
      board.FailWhen(rec.blockers[i].kind == AUTHORITY_FAILURE, AUTHORITY, TypedBlock(lane, rec.blockers[i].detail));
    }
    assert rec.blockers[..|rec.blockers|] == rec.blockers;
  }

  method AuthorityPass(lane: string, rec: Record, board: Board) returns (refused: Option<Refusal>)
    requires board.Valid()
    modifies board
    ensures refused.Some? <==> exists r :: r in rec.receipts && EmbedsProvider(r)
    ensures board.Valid()
    ensures refused.None? ==> Adds(old(board.found), board.found, Authorised, lane, rec)
  {
    board.FailWhen(rec.origin == "", AUTHORITY, OriginUndeclared(lane));
    ghost var before := board.found;
    for i := 0 to |rec.violations|
      invariant board.Valid()
      invariant forall f :: f in board.found <==>
                  f in before || (f.term == AUTHORITY && f.reason.Violation? && f.reason.lane == lane &&
                      f.reason.what in rec.violations[..i])
    {
      assert rec.violations[..i + 1] == rec.violations[..i] + [rec.violations[i]];
      board.Fail(AUTHORITY, Violation(lane, rec.violations[i]));
    }
    assert rec.violations[..|rec.violations|] == rec.violations;
    TypedBlocks(lane, rec, board);
    ActuatedExactly(rec);
    board.FailWhen(Actuated(rec) && rec.receipts == [], RECEIPTS, Unreceipted(lane));
    refused := ReceiptDefects(lane, rec, board);
  }

  method RecoveryPass(lane: string, rec: Record, board: Board) returns (recovered: bool)
    requires board.Valid()
    modifies board
    ensures board.Valid() && Adds(old(board.found), board.found, Recovered, lane, rec)
    ensures recovered <==> Recovers(rec)
  {
    recovered := false;
    for i := 0 to |rec.recovery|
      invariant board.Valid()
      invariant forall f :: f in board.found <==>
                  f in old(board.found) || (f.reason.RecoveryMalformed? && f.reason.index < i && OnLane(lane, rec, f))
      invariant recovered <==> exists k :: 0 <= k < i && SelfRecovered(rec.recovery[k])
    {
      board.FailWhen(rec.recovery[i].NotARecovery?, RECOVERY, RecoveryMalformed(lane, i));
      if SelfRecovered(rec.recovery[i]) {
        recovered := true;
      }
    }
    if k :| 0 <= k < |rec.recovery| && SelfRecovered(rec.recovery[k]) { assert rec.recovery[k] in rec.recovery; }
    SelfRecoveredExactly(rec);
  }

  method ProcessPass(lane: string, rec: Record, board: Board)
    requires board.Valid()
    modifies board
    ensures board.Valid() && Adds(old(board.found), board.found, Processed, lane, rec)
  {
    board.FailWhen(!OcelComplete(rec), OCEL, OcelIncomplete(lane));
    ghost var before := board.found;
    for i := 0 to |rec.repos|
      invariant board.Valid()
      invariant forall f :: f in board.found <==>
                  f in before || (f.reason.Unchanged? && f.reason.index < i && OnLane(lane, rec, f))
    {
      board.FailWhen(Idle(rec.repos[i]), PROCESS, Unchanged(lane, i));
    }
  }

  /** The same over a set of lanes. */
  ghost predicate OnLanes(lanes: set<string>, present: map<string, Record>, f: Finding) {
    exists lane :: lane in lanes && lane in present && OnLane(lane, present[lane], f)
  }

  ghost predicate AddsAll(before: set<Finding>, after: set<Finding>, pass: Pass, lanes: set<string>,
                          present: map<string, Record>)
  {
    forall f :: f in after <==> f in before || (PassOf(f.reason) == pass && OnLanes(lanes, present, f))
  }

  lemma OneMoreLane(start: set<Finding>, before: set<Finding>, after: set<Finding>, pass: Pass,
                    lanes: set<string>, present: map<string, Record>, lane: string)
    requires lane in present && AddsAll(start, before, pass, lanes, present) &&
        Adds(before, after, pass, lane, present[lane])
    ensures AddsAll(start, after, pass, lanes + {lane}, present)
  {
    forall f
      ensures OnLanes(lanes + {lane}, present, f) <==> OnLanes(lanes, present, f) || OnLane(lane, present[lane], f)
    {
      if OnLane(lane, present[lane], f) { assert lane in lanes + {lane}; }
      if l :| l in lanes && l in present && OnLane(l, present[l], f) { assert l in lanes + {lane}; }
    }
  }

  method CausalPasses(present: map<string, Record>, board: Board)
    requires board.Valid()
    modifies board
    ensures board.Valid() && AddsAll(old(board.found), board.found, Causal, present.Keys, present)
  {
    var todo := present.Keys;
    while todo != {}
      invariant board.Valid() && todo <= present.Keys
      invariant AddsAll(old(board.found), board.found, Causal, present.Keys - todo, present)
      decreases todo
    {
      var lane :| lane in todo;
      ghost var before := board.found;
      CausalPass(lane, present[lane], board);
      OneMoreLane(old(board.found), before, board.found, Causal, present.Keys - todo, present, lane);
      assert present.Keys - (todo - {lane}) == present.Keys - todo + {lane};
      todo := todo - {lane};
    }
  }

  method AuthorityPasses(present: map<string, Record>, board: Board) returns (refused: Option<Refusal>)
    requires board.Valid()
    modifies board
    ensures refused.Some? <==> exists lane, r :: lane in present && r in present[lane].receipts && EmbedsProvider(r)
    ensures board.Valid()
    ensures refused.None? ==> AddsAll(old(board.found), board.found, Authorised, present.Keys, present)
  {
    var todo := present.Keys;
    while todo != {}
      invariant board.Valid() && todo <= present.Keys
      invariant forall lane :: lane in present && lane !in todo ==> forall r :: r in present[lane].receipts ==>
          !EmbedsProvider(r)
      invariant AddsAll(old(board.found), board.found, Authorised, present.Keys - todo, present)
      decreases todo
    {
      var lane :| lane in todo;
      ghost var before := board.found;
      refused := AuthorityPass(lane, present[lane], board);
      if refused.Some? {
        return;
      }
      OneMoreLane(old(board.found), before, board.found, Authorised, present.Keys - todo, present, lane);
      assert present.Keys - (todo - {lane}) == present.Keys - todo + {lane};
      todo := todo - {lane};
    }
    return None;
  }

  method RecoveryPasses(present: map<string, Record>, board: Board) returns (recovered: bool)
    requires board.Valid()
    modifies board
    ensures board.Valid() && AddsAll(old(board.found), board.found, Recovered, present.Keys, present)
    ensures recovered <==> SomeRecovery(present)
  {
    recovered := false;
    var todo := present.Keys;
    while todo != {}
      invariant board.Valid() && todo <= present.Keys
      invariant AddsAll(old(board.found), board.found, Recovered, present.Keys - todo, present)
      invariant recovered <==> exists lane :: lane in present && lane !in todo && Recovers(present[lane])
      decreases todo
    {
      var lane :| lane in todo;
      ghost var before := board.found;
      var own := RecoveryPass(lane, present[lane], board);
      recovered := recovered || own;
      OneMoreLane(old(board.found), before, board.found, Recovered, present.Keys - todo, present, lane);
      assert present.Keys - (todo - {lane}) == present.Keys - todo + {lane};
      todo := todo - {lane};
    }
  }

  method ProcessPasses(present: map<string, Record>, board: Board)
    requires board.Valid()
    modifies board
    ensures board.Valid() && AddsAll(old(board.found), board.found, Processed, present.Keys, present)
  {
    var todo := present.Keys;
    while todo != {}
      invariant board.Valid() && todo <= present.Keys
      invariant AddsAll(old(board.found), board.found, Processed, present.Keys - todo, present)
      decreases todo
    {
      var lane :| lane in todo;
      ghost var before := board.found;
      ProcessPass(lane, present[lane], board);
      OneMoreLane(old(board.found), before, board.found, Processed, present.Keys - todo, present, lane);
      assert present.Keys - (todo - {lane}) == present.Keys - todo + {lane};
      todo := todo - {lane};
    }
  }

  method AbsentLanes(absent: set<string>, board: Board)
    requires board.Valid()
    modifies board
    ensures board.Valid()
    ensures forall f :: f in board.found <==>
              f in old(board.found) ||
              (f.reason.LaneAbsent? && f.reason.lane in absent && f.term in {LOOP, RECOVERY, PROVIDERS, STRESS})
  {
    var todo := absent;
    while todo != {}
      invariant board.Valid() && todo <= absent
      invariant forall f :: f in board.found <==>
                  f in old(board.found) ||
                  (f.reason.LaneAbsent? && f.reason.lane in absent - todo &&
                      f.term in {LOOP, RECOVERY, PROVIDERS, STRESS})
      decreases todo
    {
      var lane :| lane in todo;
      board.Fail(LOOP, LaneAbsent(lane));
      board.Fail(RECOVERY, LaneAbsent(lane));
      board.Fail(PROVIDERS, LaneAbsent(lane));
      board.Fail(STRESS, LaneAbsent(lane));
      todo := todo - {lane};
    }
  }

  method NoEvidence(board: Board)
    requires board.Valid() && board.found == {}
    modifies board
    ensures board.Valid() && forall f :: f in board.found <==> f.reason == NoLaneRecord
  {
    var todo := TERMS;
    forall t: Term ensures t in todo { EveryTerm(t); }
    while todo != {}
      invariant board.Valid()
      invariant forall f :: f in board.found <==> f.reason == NoLaneRecord && f.term !in todo
      decreases todo
    {
      var term :| term in todo;
      board.Fail(term, NoLaneRecord);
      todo := todo - {term};
    }
  }

  datatype Verdict = Verdict(found: set<Finding>, missingTerms: set<Term>) {
    function Standing(): string {
      if missingTerms == {} then "AUTONOMOUS_LOOP_ALIVE" else "AUTONOMOUS_LOOP_PARTIAL_ALIVE"
    }
  }

  ghost predicate AbsenceNoted(records: Lanes, f: Finding) {
    f.reason.LaneAbsent? && f.reason.lane in Absent(records) && f.term in {LOOP, RECOVERY, PROVIDERS, STRESS}
  }

  /** The findings after the first two passes: absences, causality, authority. */
  ghost predicate HalfWay(records: Lanes, found: set<Finding>) {
    var present := Present(records);
    forall f :: f in found <==>
      AbsenceNoted(records, f) || (PassOf(f.reason) in {Causal, Authorised} && OnLanes(present.Keys, present, f)) ||
      (f.reason == NoRecurrence && Overall(present, f))
  }

  /** The findings after the last two passes, added to those there were. */
  ghost predicate Completed(records: Lanes, before: set<Finding>, after: set<Finding>) {
    var present := Present(records);
    forall f :: f in after <==>
      f in before || (PassOf(f.reason) in {Recovered, Processed} && OnLanes(present.Keys, present, f)) ||
      (f.reason in {NoRecovery, NoProvider, InsufficientDiversity, NoStressPass} && Overall(present, f))
  }

  /** Pass by pass, the evaluation finds everything that is due and nothing else. */
  lemma PassesTogether(records: Lanes, half: set<Finding>, all: set<Finding>)
    requires Present(records) != map[] && HalfWay(records, half) && Completed(records, half, all)
    ensures forall f :: f in all <==> Due(records, f)
  {
    var present := Present(records);
    forall f ensures f in all <==> Due(records, f) {
      assert OnLanes(present.Keys, present, f) <==> exists lane :: lane in present && OnLane(lane, present[lane], f);
      if OnLanes(present.Keys, present, f) { assert PassOf(f.reason) != OverAll; }
    }
  }

  /** What the lanes together give grounds for in RECOVERY and PROVIDERS. */
  method OverallPass(present: map<string, Record>, recovery: bool, board: Board)
    requires board.Valid()
    requires recovery == SomeRecovery(present)
    modifies board
    ensures board.Valid()
    ensures forall f :: f in board.found <==>
              f in old(board.found) ||
              (f.reason in {NoRecovery, NoProvider, InsufficientDiversity} && Overall(present, f))
  {
    var providers := Providers(present);
    ghost var start := board.found;
    board.FailWhen(!recovery, RECOVERY, NoRecovery);
    ghost var first := board.found;
    assert forall f :: f in first <==> f in start || (f.reason == NoRecovery && Overall(present, f));
    board.FailWhen(providers == {}, PROVIDERS, NoProvider);
    ghost var second := board.found;
    assert forall f :: f in second <==> f in first || (f.reason == NoProvider && Overall(present, f));
    board.FailWhen(|providers| < 2 && !SomeReplacement(present), PROVIDERS, InsufficientDiversity);
    assert forall f :: f in board.found <==> f in second || (f.reason == InsufficientDiversity && Overall(present, f));
  }

  method FirstPasses(records: Lanes, board: Board) returns (refused: Option<Refusal>)
    requires board.Valid() && board.found == {}
    modifies board
    ensures refused.Some? <==> Refusable(records)
    ensures board.Valid()
    ensures refused.None? ==> HalfWay(records, board.found)
  {
    var present := Present(records);
    AbsentLanes(Absent(records), board);
    CausalPasses(present, board);
    board.FailWhen(!SomeAutonomy(present), LOOP, NoRecurrence);
    refused := AuthorityPasses(present, board);
  }

  method LastPasses(records: Lanes, board: Board)
    requires board.Valid()
    modifies board
    ensures board.Valid() && Completed(records, old(board.found), board.found)
  {
    var present := Present(records);
    var recovery := RecoveryPasses(present, board);
    OverallPass(present, recovery, board);
    ProcessPasses(present, board);
    board.FailWhen(!SomeStress(present), STRESS, NoStressPass);
  }

  method EvaluatePresent(records: Lanes, board: Board) returns (refused: Option<Refusal>)
    requires Present(records) != map[] && board.Valid() && board.found == {}
    modifies board
    ensures refused.Some? <==> Refusable(records)
    ensures board.Valid()
    ensures refused.None? ==> forall f :: f in board.found <==> Due(records, f)
  {
    refused := FirstPasses(records, board);
    if refused.None? {
      ghost var half := board.found;
      LastPasses(records, board);
      PassesTogether(records, half, board.found);
    }
  }

  method Evaluate(records: Lanes) returns (r: Result<Verdict, Refusal>)
    ensures r.Err? <==> Refusable(records)
    ensures r.Ok? ==> forall f :: f in r.value.found <==> Due(records, f)
    ensures r.Ok? ==> forall t :: t in r.value.missingTerms <==> exists f: Finding :: f.term == t && f in r.value.found
  {
    var board := new Board();
    if Present(records) == map[] {
      NoEvidence(board);
    } else {
      var refused := EvaluatePresent(records, board);
      if refused.Some? {
        return Err(refused.value);
      }
    }
    forall t: Term ensures t in TERMS { EveryTerm(t); }
    return Ok(Verdict(board.found, TERMS - board.passed));
  }

  /** Of the defects a lane gives grounds for, all are charged to the term they are meant for,
      except, where the lane's own name contains the word that the routing looks for, those
      that are not about the binding. */
  lemma DefectsReachTheirTerm(lane: string, rec: Record, f: Finding)
    ensures OnLane(lane, rec, f) && f.reason.Defective? ==>
              (f.term == Meant(f.reason.defect) <==> AboutBinding(f.reason.defect) || !Contains(lane, TOKEN))
  {
    match f.reason {
      case Defective(_, _, d) => RoutedAsMeant(lane, d);
      case _ =>
    }
  }
}
