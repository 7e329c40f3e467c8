/** How the crown routes receipt defects: each is rendered as a sentence, and the sentence is
    searched for a word. The word decides the term, so what else the sentence may contain
    matters. */
module DefectRouting {
  import opened Text

  datatype Term = LOOP | CAUSALITY | AUTHORITY | RECEIPTS | RECOVERY | PROVIDERS | OCEL | PROCESS | STRESS | REPLAY

  datatype Field =
    | WorkOrderId | Provider | ProviderExecutionId | OriginAuthority | ExitStatus | ReplayBinding | Consequence

  datatype Defect = NotObject | MissingField(field: Field) | BindingShape

  const TOKEN := "replay_binding"

  // ----- The sentences -----

  function FieldName(f: Field): string {
    match f
    case WorkOrderId => "work_order_id"
    case Provider => "provider"
    case ProviderExecutionId => "provider_execution_id"
    case OriginAuthority => "origin_authority"
    case ExitStatus => "exit_status"
    case ReplayBinding => "replay_binding"
    case Consequence => "consequence"
  }

  function Decimal(n: nat): string {
    if n < 10 then [('0' as int + n) as char] else Decimal(n / 10) + [('0' as int + n % 10) as char]
  }

  /** What is wrong, with the binding as it is shown. */
  function Complaint(d: Defect, shown: string): string {
    match d
    case NotObject => "not an object"
    case MissingField(f) => "missing " + FieldName(f)
    case BindingShape => TOKEN + (" " + shown + " not verifier:target shape")
  }

  function Rendered(lane: string, index: nat, d: Defect, shown: string): string {
    lane + ":" + ("receipt" + "[" + (Decimal(index) + "]" + (":" + (" " + Complaint(d, shown)))))
  }

  // ----- Searching -----

  lemma Letter(s: string, i: int, token: string, k: nat)
    requires OccursAt(s, i, token) && k < |token|
    ensures i + k < |s| && s[i + k] == token[k]
  {
    assert s[i..i + |token|][k] == s[i + k];
  }

  lemma NoStraddling(s: string, i: int, token: string, at: nat)
    requires OccursAt(s, i, token) && at < |s| && s[at] !in token
    ensures !(i <= at < i + |token|)
  {
    var k := at - i;
    if 0 <= k < |token| { Letter(s, i, token, k); }
  }

  /** A token cannot straddle a separator that it does not contain. */
  lemma ContainsSplit(a: string, c: char, b: string, token: string)
    requires c !in token && token != ""
    ensures Contains(a + [c] + b, token) <==> Contains(a, token) || Contains(b, token)
  {
    var s := a + [c] + b;
    if i :| 0 <= i <= |s| && OccursAt(s, i, token) {
      NoStraddling(s, i, token, |a|);
      if i + |token| <= |a| {
        assert s[i..i + |token|] == a[i..i + |token|];
        assert OccursAt(a, i, token);
      } else {
        var j := i - |a| - 1;
        assert s[i..i + |token|] == b[j..j + |token|];
        assert OccursAt(b, j, token);
      }
    }
    if i :| 0 <= i <= |a| && OccursAt(a, i, token) {
      assert s[i..i + |token|] == a[i..i + |token|];
      assert OccursAt(s, i, token);
    }
    if i :| 0 <= i <= |b| && OccursAt(b, i, token) {
      var j := i + |a| + 1;
      assert s[j..j + |token|] == b[i..i + |token|];
      assert OccursAt(s, j, token);
    }
  }

  lemma ShortLacks(s: string, token: string)
    requires |s| < |token|
    ensures !Contains(s, token)
  {
  }

  lemma WithoutLetter(s: string, token: string)
    requires token != "" && token[0] !in s
    ensures !Contains(s, token)
  {
    forall i | 0 <= i <= |s| ensures OccursAt(s, i, token) ==> i < |s| && s[i] == token[0] {
      if OccursAt(s, i, token) { Letter(s, i, token, 0); }
    }
  }

  lemma StartsWithToken(token: string, rest: string)
    ensures Contains(token + rest, token)
  {
    assert OccursAt(token + rest, 0, token);
  }

  lemma {:induction false} DecimalDigits(n: nat)
    ensures forall c :: c in Decimal(n) ==> '0' <= c <= '9'
  {
    if n < 10 {
    } else {
      DecimalDigits(n / 10);
    }
  }

  predicate BeginsAt(s: string, i: nat, token: string)
    requires |token| >= 2
  {
    i < |s| - 1 && s[i] == token[0] && s[i + 1] == token[1]
  }

  lemma NeverBegins(s: string, token: string)
    requires |token| >= 2 && forall i: nat :: !BeginsAt(s, i, token)
    ensures !Contains(s, token)
  {
    forall i | 0 <= i <= |s| ensures OccursAt(s, i, token) ==> BeginsAt(s, i, token) {
      if OccursAt(s, i, token) {
        Letter(s, i, token, 0);
        Letter(s, i, token, 1);
      }
    }
  }

  /** Where the word could begin in a field's name, the second letter is wrong. */
  lemma NameLacksToken(f: Field)
    requires f != ReplayBinding
    ensures !Contains(FieldName(f), TOKEN)
  {
    var name := FieldName(f);
    if |name| < |TOKEN| {
      ShortLacks(name, TOKEN);
    } else {
      forall i: nat ensures !BeginsAt(name, i, TOKEN) {
        assert TOKEN[0] == 'r' && TOKEN[1] == 'e';
        assert i < |name| - 1 ==> name[i] != 'r' || name[i + 1] != 'e';
      }
      NeverBegins(name, TOKEN);
    }
  }

  predicate AboutBinding(d: Defect) {
    d == BindingShape || d == MissingField(ReplayBinding)
  }

  lemma ComplaintNames(d: Defect, shown: string)
    ensures Contains(Complaint(d, shown), TOKEN) <==> AboutBinding(d)
  {
    match d {
      case NotObject =>
        ShortLacks("not an object", TOKEN);
      case MissingField(f) =>
        var words := "missing" + [' '] + FieldName(f);
        assert Complaint(d, shown) == words;
        ContainsSplit("missing", ' ', FieldName(f), TOKEN);
        ShortLacks("missing", TOKEN);
        if f == ReplayBinding {
          assert FieldName(f) == TOKEN + "";
          StartsWithToken(TOKEN, "");
        } else {
          NameLacksToken(f);
        }
      case BindingShape =>
        StartsWithToken(TOKEN, " " + shown + " not verifier:target shape");
    }
  }

  /** The index of the receipt adds nothing to what follows it. */
  lemma IndexSaysNothing(index: nat, after: string)
    ensures Contains("receipt" + "[" + (Decimal(index) + "]" + after), TOKEN) <==> Contains(after, TOKEN)
  {
    ContainsSplit("receipt", '[', Decimal(index) + "]" + after, TOKEN);
    ShortLacks("receipt", TOKEN);
    ContainsSplit(Decimal(index), ']', after, TOKEN);
    DecimalDigits(index);
    WithoutLetter(Decimal(index), TOKEN);
  }

  lemma SeparatorSaysNothing(c: char, after: string)
    requires c !in TOKEN
    ensures Contains([c] + after, TOKEN) <==> Contains(after, TOKEN)
  {
    assert "" + [c] + after == [c] + after;
    ContainsSplit("", c, after, TOKEN);
    ShortLacks("", TOKEN);
  }

  /** The word is found if and only if the defect is about the binding or the lane's own name
      contains the word: nothing between them can complete it. */
  lemma RenderedNames(lane: string, index: nat, d: Defect, shown: string)
    ensures Contains(Rendered(lane, index, d, shown), TOKEN) <==> AboutBinding(d) || Contains(lane, TOKEN)
  {
    var complaint := Complaint(d, shown);
    var afterNumber := ":" + (" " + complaint);
    ContainsSplit(lane, ':', "receipt" + "[" + (Decimal(index) + "]" + afterNumber), TOKEN);
    IndexSaysNothing(index, afterNumber);
    SeparatorSaysNothing(':', " " + complaint);
    SeparatorSaysNothing(' ', complaint);
    ComplaintNames(d, shown);
  }

  // ----- Routing -----

  /** The term a defect ends up under. */
  function Charged(lane: string, d: Defect): Term {
    if AboutBinding(d) || Contains(lane, TOKEN) then REPLAY else RECEIPTS
  }

  /** Routing searches the sentence, and that decides the term whatever the index and however
      the binding is shown. */
  method Route(lane: string, index: nat, d: Defect, shown: string) returns (term: Term)
    ensures term == Charged(lane, d)
  {
    RenderedNames(lane, index, d, shown);
    term := if Contains(Rendered(lane, index, d, shown), TOKEN) then REPLAY else RECEIPTS;
  }

  /** The term a defect is meant for. */
  function Meant(d: Defect): Term {
    if AboutBinding(d) then REPLAY else RECEIPTS
  }

  /** A defect reaches the term it is meant for if and only if it is about the binding or the
      name of its lane does not contain the word. */
  lemma RoutedAsMeant(lane: string, d: Defect)
    ensures Charged(lane, d) == Meant(d) <==> AboutBinding(d) || !Contains(lane, TOKEN)
  {
  }

  /** A concrete lane whose missing provider is charged to the wrong term. */
  lemma MisroutedLane(index: nat)
    ensures Meant(MissingField(Provider)) == RECEIPTS
    ensures Contains(Rendered("lane-replay_binding", index, MissingField(Provider), ""), TOKEN)
    ensures Charged("lane-replay_binding", MissingField(Provider)) == REPLAY
  {
    assert OccursAt("lane-replay_binding", 5, TOKEN);
    RenderedNames("lane-replay_binding", index, MissingField(Provider), "");
  }
}
