/** The crown as one condition on the records: what each lane and all lanes together must show,
    and that the evaluation finds nothing exactly when they do. */
module CrownCondition {
  import opened Prelude
  import opened Text
  import opened DefectRouting
  import opened LoopCrown

  // ----- The condition, on the fields of the records -----

  /** A verifier name, a colon, a target. */
  ghost predicate SplitsInto(s: string, name: string, target: string) {
    s == name + ":" + target && name != "" && target != "" &&
    (forall c :: c in name ==> NameChar(c)) && (forall c :: c in target ==> !IsSpace(c))
  }

  ghost predicate IsBinding(s: string) {
    exists name, target :: SplitsInto(s, name, target)
  }

  /** A receipt has every field, none of them blank, and a binding in due form. */
  ghost predicate WellFormed(r: Receipt) {
    match r
    case NotAReceipt => false
    case Receipt(fields) =>
      (forall f: Field :: f in fields && !AllSpace(fields[f])) && IsBinding(fields[ReplayBinding])
  }

  ghost predicate CausallySound(rec: Record) {
    var tainted := PostEpochExecution in rec.humanEdges;
    !(tainted && rec.demonstrated) && (rec.standing == "AUTONOMOUS" ==> !tainted && rec.demonstrated)
  }

  ghost predicate AuthoritySound(rec: Record) {
    rec.origin != "" && rec.violations == [] && forall b :: b in rec.blockers ==> b.kind != "AUTHORITY_FAILURE"
  }

  /** All entries of the three lists are in order. */
  ghost predicate ListsSound(rec: Record) {
    && (forall r :: r in rec.receipts ==> WellFormed(r))
    && (forall e :: e in rec.recovery ==> e.Recovery?)
    && (forall repo :: repo in rec.repos ==> !Unmoved(repo))
  }

  /** What every lane must show. */
  ghost predicate LaneSound(rec: Record) {
    && CausallySound(rec) && AuthoritySound(rec) && ListsSound(rec) && EventsSound(rec)
    && (HasCommitted(rec) ==> rec.receipts != [])
  }

  /** The lane has recurred of itself: twice or more, through all stages, without a human edge
      after the epoch. */
  ghost predicate Recurs(rec: Record) {
    && rec.demonstrated && rec.iterations >= 2 && PostEpochExecution !in rec.humanEdges
    && {"Receipt[n]", "Reobserve[n+1]", "Frontier[n+1]", "WorkOrder[n+1]"} <= rec.chain
  }

  ghost predicate ReceiptNames(r: Receipt, provider: string) {
    r.Receipt? && provider != "" && Provider in r.fields && r.fields[Provider] == provider
  }

  /** Some receipt of some lane is by the provider. */
  ghost predicate Provides(records: Lanes, provider: string) {
    exists rec, r :: Some(rec) in records.Values && r in rec.receipts && ReceiptNames(r, provider)
  }

  /** There are two providers, or there is one that may be replaced. */
  ghost predicate ProvidersShown(records: Lanes) {
    && (exists p :: Provides(records, p))
    && ((exists p, q :: p != q && Provides(records, p) && Provides(records, q)) ||
        (exists rec :: Some(rec) in records.Values && rec.providerReplaceAdmitted))
  }

  /** What the lanes must show between them. */
  ghost predicate LoopShown(records: Lanes) {
    && (exists rec :: Some(rec) in records.Values && Recurs(rec))
    && (exists rec :: Some(rec) in records.Values && Recovers(rec))
    && (exists rec :: Some(rec) in records.Values && rec.stressResult == "PASS")
    && ProvidersShown(records)
  }

  /** The loop is alive: there are lanes, none without its record, every lane is sound, and
      among them the lanes show a recurrence of their own making, a recovery without a human, a
      passed stress, and either two providers or one that may be replaced. */
  ghost predicate CrownHolds(records: Lanes) {
    && records != map[]
    && (forall lane :: lane in records ==> records[lane].Some? && LaneSound(records[lane].value))
    && LoopShown(records)
  }

  /** Some receipt has a work order that names its provider, in whatever case. */
  ghost predicate NamesItsProvider(records: Lanes) {
    exists rec, r :: Some(rec) in records.Values && r in rec.receipts && OrderNamesProvider(r)
  }

  ghost predicate OrderNamesProvider(r: Receipt) {
    match r
    case NotAReceipt => false
    case Receipt(fields) =>
      Provider in fields && fields[Provider] != "" && WorkOrderId in fields &&
      ContainsInAnyCase(fields[WorkOrderId], fields[Provider])
  }

  // ----- What the evaluation looks at comes to the same -----

  lemma SplitAtColon(s: string, name: string, target: string)
    requires SplitsInto(s, name, target)
    ensures BindingShaped(s)
  {
    var i := |name|;
    forall k | 0 <= k < i ensures NameChar(s[k]) { assert s[k] == name[k] && name[k] in name; }
    forall k | i < k < |s| ensures !IsSpace(s[k]) {
      assert s[k] == target[k - i - 1] && target[k - i - 1] in target;
    }
    assert s[i] == ':' && 0 < i < |s| - 1;
  }

  lemma ColonSplits(s: string, i: nat)
    requires 0 < i < |s| - 1 && s[i] == ':' && (forall k :: 0 <= k < i ==> NameChar(s[k]))
    requires forall k :: i < k < |s| ==> !IsSpace(s[k])
    ensures SplitsInto(s, s[..i], s[i + 1..])
  {
    assert s == s[..i] + ":" + s[i + 1..];
    forall c | c in s[..i] ensures NameChar(c) { var k :| 0 <= k < i && s[k] == c; }
    forall c | c in s[i + 1..] ensures !IsSpace(c) {
      var k :| 0 <= k < |s[i + 1..]| && s[i + 1..][k] == c;
      assert s[i + 1 + k] == c;
    }
  }

  lemma BindingExactly(s: string)
    ensures BindingShaped(s) <==> IsBinding(s)
  {
    if BindingShaped(s) {
      var i :| 0 < i < |s| - 1 && s[i] == ':' && (forall k :: 0 <= k < i ==> NameChar(s[k])) &&
               (forall k :: i < k < |s| ==> !IsSpace(s[k]));
      ColonSplits(s, i);
    }
    if name, target :| SplitsInto(s, name, target) { SplitAtColon(s, name, target); }
  }

  lemma MissingExactly(r: Receipt, f: Field)
    requires r.Receipt?
    ensures Missing(r, f) <==> !(f in r.fields && !AllSpace(r.fields[f]))
  {
    if f in r.fields { BlankExactly(r.fields[f]); }
  }

  lemma EmbedsExactly(r: Receipt)
    ensures EmbedsProvider(r) <==> OrderNamesProvider(r)
  {
    if r.Receipt? && Provider in r.fields && WorkOrderId in r.fields {
      LowerContainsExactly(r.fields[WorkOrderId], r.fields[Provider]);
    }
  }

  /** The records there are, by lane. */
  lemma PresentExactly(records: Lanes, rec: Record)
    ensures Some(rec) in records.Values <==> exists lane :: lane in Present(records) && Present(records)[lane] == rec
  {
    if Some(rec) in records.Values {
      var lane :| lane in records && records[lane] == Some(rec);
      assert lane in Present(records) && Present(records)[lane] == rec;
    }
  }

  lemma RefusableExactly(records: Lanes)
    ensures Refusable(records) <==> NamesItsProvider(records)
  {
    if lane, r :| lane in Present(records) && r in Present(records)[lane].receipts && EmbedsProvider(r) {
      PresentExactly(records, Present(records)[lane]);
      EmbedsExactly(r);
    }
    if rec, r :| Some(rec) in records.Values && r in rec.receipts && OrderNamesProvider(r) {
      PresentExactly(records, rec);
      EmbedsExactly(r);
    }
  }

  // ----- One lane -----

  lemma SoundReceipt(r: Receipt)
    ensures WellFormed(r) <==> forall d :: !HasDefect(r, d)
  {
    match r {
      case NotAReceipt => assert HasDefect(r, NotObject);
      case Receipt(fields) =>
        forall f: Field ensures Missing(r, f) <==> !(f in fields && !AllSpace(fields[f])) { MissingExactly(r, f); }
        if f: Field :| Missing(r, f) {
          assert HasDefect(r, MissingField(f));
        } else {
          var binding := fields[ReplayBinding];
          assert ReplayBinding in fields && !AllSpace(binding);
          BindingExactly(binding);
          if !IsBinding(binding) { assert HasDefect(r, BindingShape); }
        }
    }
  }

  lemma SoundGivesNoGrounds(lane: string, rec: Record, f: Finding)
    requires LaneSound(rec)
    ensures !OnLane(lane, rec, f)
  {
    match f.reason {
      case Defective(l, i, d) =>
        if i < |rec.receipts| {
          assert rec.receipts[i] in rec.receipts;
          SoundReceipt(rec.receipts[i]);
        }
      case RecoveryMalformed(l, i) => assert i < |rec.recovery| ==> rec.recovery[i] in rec.recovery;
      case Unchanged(l, i) => assert i < |rec.repos| ==> rec.repos[i] in rec.repos;
      case _ =>
    }
  }

  ghost predicate GivesGrounds(lane: string, rec: Record) {
    exists f :: OnLane(lane, rec, f)
  }

  lemma Grounds(lane: string, rec: Record, term: Term, reason: Reason)
    ensures OnLane(lane, rec, Finding(term, reason)) ==> GivesGrounds(lane, rec)
  {
  }

  lemma ReceiptGrounds(lane: string, rec: Record, i: nat)
    requires i < |rec.receipts| && !WellFormed(rec.receipts[i])
    ensures GivesGrounds(lane, rec)
  {
    SoundReceipt(rec.receipts[i]);
    var d :| HasDefect(rec.receipts[i], d);
    Grounds(lane, rec, Charged(lane, d), Defective(lane, i, d));
  }

  lemma CausalGrounds(lane: string, rec: Record)
    ensures GivesGrounds(lane, rec) || CausallySound(rec)
  {
    Grounds(lane, rec, LOOP, TaintedRecurrence(lane));
    Grounds(lane, rec, CAUSALITY, AutonomousTainted(lane));
    Grounds(lane, rec, CAUSALITY, AutonomousUndemonstrated(lane));
  }

  lemma AuthorityGrounds(lane: string, rec: Record)
    ensures GivesGrounds(lane, rec) || AuthoritySound(rec)
  {
    Grounds(lane, rec, AUTHORITY, OriginUndeclared(lane));
    if b :| b in rec.blockers && b.kind == "AUTHORITY_FAILURE" {
      Grounds(lane, rec, AUTHORITY, TypedBlock(lane, b.detail));
    }
    if rec.violations != [] { Grounds(lane, rec, AUTHORITY, Violation(lane, rec.violations[0])); }
  }

  lemma ListGrounds(lane: string, rec: Record)
    ensures GivesGrounds(lane, rec) || ListsSound(rec)
  {
    if r :| r in rec.receipts && !WellFormed(r) {
      var i :| 0 <= i < |rec.receipts| && rec.receipts[i] == r;
      ReceiptGrounds(lane, rec, i);
    } else if e :| e in rec.recovery && e.NotARecovery? {
      var i :| 0 <= i < |rec.recovery| && rec.recovery[i] == e;
      Grounds(lane, rec, RECOVERY, RecoveryMalformed(lane, i));
    } else if repo :| repo in rec.repos && Unmoved(repo) {
      var i :| 0 <= i < |rec.repos| && rec.repos[i] == repo;
      Grounds(lane, rec, PROCESS, Unchanged(lane, i));
    }
  }

  /** A lane is sound exactly when it gives grounds for no finding. */
  lemma SoundMeansNoGrounds(lane: string, rec: Record)
    ensures LaneSound(rec) <==> !GivesGrounds(lane, rec)
  {
    if LaneSound(rec) {
      forall f ensures !OnLane(lane, rec, f) { SoundGivesNoGrounds(lane, rec, f); }
    } else {
      CausalGrounds(lane, rec);
      AuthorityGrounds(lane, rec);
      ListGrounds(lane, rec);
      Grounds(lane, rec, RECEIPTS, Unreceipted(lane));
      Grounds(lane, rec, OCEL, OcelIncomplete(lane));
    }
  }

  // ----- All lanes -----

  lemma ShownOnce(records: Lanes)
    requires Absent(records) == {}
    ensures SomeAutonomy(Present(records)) <==> exists rec :: Some(rec) in records.Values && Recurs(rec)
    ensures SomeStress(Present(records)) <==> exists rec :: Some(rec) in records.Values && rec.stressResult == "PASS"
    ensures SomeReplacement(Present(records)) <==>
            exists rec :: Some(rec) in records.Values && rec.providerReplaceAdmitted
  {
    forall rec ensures Some(rec) in records.Values <==>
        exists lane :: lane in Present(records) && Present(records)[lane] == rec
    {
      PresentExactly(records, rec);
    }
  }

  lemma RecoveryShown(records: Lanes)
    ensures SomeRecovery(Present(records)) <==> exists rec :: Some(rec) in records.Values && Recovers(rec)
  {
    var present := Present(records);
    if lane :| lane in present && Recovers(present[lane]) {
      PresentExactly(records, present[lane]);
    }
    if rec :| Some(rec) in records.Values && Recovers(rec) {
      PresentExactly(records, rec);
      var lane :| lane in present && present[lane] == rec;
      assert Recovers(present[lane]);
    }
  }

  lemma ProvidersExactly(records: Lanes, p: string)
    ensures p in Providers(Present(records)) <==> Provides(records, p)
  {
    var present := Present(records);
    if p in Providers(present) {
      var lane :| lane in present && p in ProvidersIn(present[lane]);
      PresentExactly(records, present[lane]);
      var r :| r in present[lane].receipts && ReceiptNames(r, p);
    }
    if rec, r :| Some(rec) in records.Values && r in rec.receipts && ReceiptNames(r, p) {
      PresentExactly(records, rec);
      var lane :| lane in present && present[lane] == rec;
      assert p in ProvidersIn(present[lane]);
    }
  }

  lemma TwoMembers(s: set<string>)
    ensures |s| >= 2 <==> exists p, q :: p != q && p in s && q in s
  {
    if |s| >= 2 {
      var p :| p in s;
      assert |s - {p}| >= 1;
      var q :| q in s - {p};
    }
    if p, q :| p != q && p in s && q in s {
      assert |s - {p} - {q}| == |s| - 2;
    }
  }

  lemma ProvidersAreShown(records: Lanes)
    requires Absent(records) == {}
    ensures ProvidersShown(records) <==>
            var providers := Providers(Present(records));
            providers != {} && (|providers| >= 2 || SomeReplacement(Present(records)))
  {
    var providers := Providers(Present(records));
    forall p ensures p in providers <==> Provides(records, p) { ProvidersExactly(records, p); }
    TwoMembers(providers);
    ShownOnce(records);
    if p :| p in providers { assert Provides(records, p); }
    if p, q :| p != q && p in providers && q in providers { assert Provides(records, p) && Provides(records, q); }
  }

  lemma ShownExactly(records: Lanes)
    requires Absent(records) == {}
    ensures var present := Present(records);
            LoopShown(records) <==>
              SomeAutonomy(present) && SomeRecovery(present) && SomeStress(present) && Providers(present) != {} &&
              (|Providers(present)| >= 2 || SomeReplacement(present))
  {
    ShownOnce(records);
    RecoveryShown(records);
    ProvidersAreShown(records);
  }

  lemma ShownMeansNoneOverall(records: Lanes)
    requires Absent(records) == {}
    ensures LoopShown(records) <==> forall f :: !Overall(Present(records), f)
  {
    var present := Present(records);
    ShownExactly(records);
    if !SomeAutonomy(present) {
      assert Overall(present, Finding(LOOP, NoRecurrence));
    } else if !SomeRecovery(present) {
      assert Overall(present, Finding(RECOVERY, NoRecovery));
    } else if !SomeStress(present) {
      assert Overall(present, Finding(STRESS, NoStressPass));
    } else if Providers(present) == {} {
      assert Overall(present, Finding(PROVIDERS, NoProvider));
    } else if |Providers(present)| < 2 && !SomeReplacement(present) {
      assert Overall(present, Finding(PROVIDERS, InsufficientDiversity));
    }
  }

  ghost predicate SomethingDue(records: Lanes) {
    exists f :: Due(records, f)
  }

  lemma NoLanes(records: Lanes)
    requires Absent(records) == {}
    ensures Present(records) == map[] <==> records == map[]
    ensures forall lane :: lane in records ==> records[lane].Some? && lane in Present(records)
  {
    forall lane | lane in records ensures records[lane].Some? && lane in Present(records) {
      assert lane !in Absent(records);
    }
  }

  lemma UnsoundIsDue(records: Lanes)
    requires !CrownHolds(records)
    ensures SomethingDue(records)
  {
    var present := Present(records);
    if present == map[] {
      assert Due(records, Finding(LOOP, NoLaneRecord));
    } else if lane :| lane in Absent(records) {
      assert Due(records, Finding(LOOP, LaneAbsent(lane)));
    } else {
      NoLanes(records);
      if lane :| lane in present && !LaneSound(present[lane]) {
        SoundMeansNoGrounds(lane, present[lane]);
        var f :| OnLane(lane, present[lane], f);
        assert Due(records, f);
      } else {
        ShownMeansNoneOverall(records);
        var f :| Overall(present, f);
        assert Due(records, f);
      }
    }
  }

  lemma HoldsMeansNothingDue(records: Lanes, f: Finding)
    requires CrownHolds(records)
    ensures !Due(records, f)
  {
    var present := Present(records);
    assert Absent(records) == {};
    NoLanes(records);
    ShownMeansNoneOverall(records);
    forall lane | lane in present ensures !OnLane(lane, present[lane], f) { SoundMeansNoGrounds(lane, present[lane]); }
  }

  /** Nothing is found exactly when the crown holds. */
  lemma NothingDueMeansCrownHolds(records: Lanes)
    ensures CrownHolds(records) <==> !SomethingDue(records)
  {
    if CrownHolds(records) {
      forall f ensures !Due(records, f) { HoldsMeansNothingDue(records, f); }
    } else {
      UnsoundIsDue(records);
    }
  }

  /** The evaluation is refused exactly when a work order names its provider; otherwise the
      standing is AUTONOMOUS_LOOP_ALIVE exactly when the crown holds. */
  method Crown(records: Lanes) returns (r: Result<string, Refusal>)
    ensures r.Err? <==> NamesItsProvider(records)
    ensures r.Ok? ==> r.value == if CrownHolds(records) then "AUTONOMOUS_LOOP_ALIVE"
                                 else "AUTONOMOUS_LOOP_PARTIAL_ALIVE"
  {
    RefusableExactly(records);
    var verdict :- Evaluate(records);
    NothingDueMeansCrownHolds(records);
    if f :| f in verdict.found { assert f.term in verdict.missingTerms; }
    if t :| t in verdict.missingTerms { var f: Finding :| f.term == t && f in verdict.found; }
    return Ok(verdict.Standing());
  }
}
