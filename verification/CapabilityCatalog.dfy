/** The capability catalog: its fail-closed admission, and the frontier of capabilities that
    may be used under a given observation and authority. */
module CapabilityCatalog {
  import opened Prelude
  import opened Ordering
  import opened DependencyGraph

  datatype Item = Item(id: string, owner: string, class_: string, standing: string, requiredAuthority: string,
                       interfaces: set<string>, inputs: seq<string>, outputs: seq<string>, refusals: seq<string>,
                       sources: seq<string>, brokerRequired: bool, receiptRequired: bool, dependsOn: seq<string>)

  datatype Catalog = Catalog(schema: string, subject: string, capability: seq<Item>)

  datatype Refusal =
    | Schema | Subject | CatalogEmpty | BadId(id: string) | Duplicate(id: string) | Owner(id: string)
    | Class(id: string)
    | Standing(id: string) | Authority(id: string) | SurfaceClosure(id: string) | ContractIncomplete(id: string)
    | SourceOwnershipEmpty(id: string) | DoWithoutMutatingAuthority(id: string) | DoWithoutBroker(id: string)
    | DoWithoutReceipt(id: string) | SpuriousBroker(id: string) | MissingDependency(id: string) | Cycle(id: string)

  const CLASSES: set<string> := {"OBSERVE", "SELECT", "CONSTRUCT", "DO"}
  const STANDINGS: set<string> :=
    {"UNKNOWN", "OBSERVED", "CANDIDATE", "PARTIAL_ALIVE", "ALIVE", "BLOCKED", "UNSUPPORTED", "REJECTED", "SUPERSEDED"}
  const MUTATING: set<string> :=
    {"modify_external_object", "communicate", "merge", "delete", "spend", "approve", "release"}
  const AUTHORITIES: set<string> :=
    {"observe", "classify", "draft", "persist_control_plane", "open_draft_pull_request"} + MUTATING
  const INTERFACES: set<string> := {"cli", "api", "mcp", "a2a"}
  const NON_CONSEQUENTIAL: set<string> := {"OBSERVE", "SELECT", "CONSTRUCT"}

  predicate Prefixed(s: string, prefix: string) {
    |s| > |prefix| && s[..|prefix|] == prefix
  }

  predicate IdChar(c: char) {
    'a' <= c <= 'z' || '0' <= c <= '9' || c in "-_"
  }

  predicate GoodId(id: string) {
    Prefixed(id, "capability:") && forall i :: |"capability:"| <= i < |id| ==> IdChar(id[i])
  }

  /** The first check a single item fails. */
  function Unfit(item: Item): Option<Refusal> {
    if !Prefixed(item.owner, "repository:") then Some(Owner(item.id))
    else if item.class_ !in CLASSES then Some(Class(item.id))
    else if item.standing !in STANDINGS then Some(Standing(item.id))
    else if item.requiredAuthority !in AUTHORITIES then Some(Authority(item.id))
    else if item.interfaces != INTERFACES then Some(SurfaceClosure(item.id))
    else if item.inputs == [] || item.outputs == [] || item.refusals == [] then Some(ContractIncomplete(item.id))
    else if item.sources == [] then Some(SourceOwnershipEmpty(item.id))
    else if item.class_ == "DO" then
      if item.requiredAuthority !in MUTATING then Some(DoWithoutMutatingAuthority(item.id))
      else if !item.brokerRequired then Some(DoWithoutBroker(item.id))
      else if !item.receiptRequired then Some(DoWithoutReceipt(item.id))
      else None
    else if item.brokerRequired && item.requiredAuthority !in MUTATING then Some(SpuriousBroker(item.id))
    else None
  }

  // The same on the fields of an item.

  ghost predicate ProperId(id: string) {
    |id| > 11 && id[..11] == "capability:" &&
    forall c :: c in id[11..] ==> 'a' <= c <= 'z' || '0' <= c <= '9' || c == '-' || c == '_'
  }

  ghost predicate ProperOwner(owner: string) {
    |owner| > 11 && owner[..11] == "repository:"
  }

  ghost predicate KnownClass(class_: string) {
    class_ in {"OBSERVE", "SELECT", "CONSTRUCT", "DO"}
  }

  ghost predicate KnownStanding(standing: string) {
    standing in {"UNKNOWN", "OBSERVED", "CANDIDATE", "PARTIAL_ALIVE", "ALIVE", "BLOCKED", "UNSUPPORTED", "REJECTED",
                 "SUPERSEDED"}
  }

  ghost predicate Mutates(authority: string) {
    authority in {"modify_external_object", "communicate", "merge", "delete", "spend", "approve", "release"}
  }

  ghost predicate KnownAuthority(authority: string) {
    authority in {"observe", "classify", "draft", "persist_control_plane", "open_draft_pull_request"} ||
    Mutates(authority)
  }

  /** Who owns it, what kind it is, and what it offers are all as they must be. */
  ghost predicate Declared(item: Item) {
    && ProperOwner(item.owner) && KnownClass(item.class_) && KnownStanding(item.standing)
    && KnownAuthority(item.requiredAuthority) && item.interfaces == {"cli", "api", "mcp", "a2a"}
    && item.inputs != [] && item.outputs != [] && item.refusals != [] && item.sources != []
  }

  /** A DO needs a mutating authority, a broker and a receipt; anything else needs a mutating
      authority if it asks for a broker. */
  ghost predicate Fenced(item: Item) {
    && (item.class_ == "DO" ==> Mutates(item.requiredAuthority) && item.brokerRequired && item.receiptRequired)
    && (item.brokerRequired ==> Mutates(item.requiredAuthority))
  }

  /** The first check that the item fails: those before it hold, and it does not. */
  ghost predicate UnfitFor(item: Item, error: Refusal) {
    match error
    case Owner(id) => id == item.id && !ProperOwner(item.owner)
    case Class(id) => id == item.id && ProperOwner(item.owner) && !KnownClass(item.class_)
    case Standing(id) =>
      id == item.id && ProperOwner(item.owner) && KnownClass(item.class_) && !KnownStanding(item.standing)
    case Authority(id) =>
      id == item.id && ProperOwner(item.owner) && KnownClass(item.class_) && KnownStanding(item.standing) &&
      !KnownAuthority(item.requiredAuthority)
    case SurfaceClosure(id) =>
      id == item.id && ProperOwner(item.owner) && KnownClass(item.class_) && KnownStanding(item.standing) &&
      KnownAuthority(item.requiredAuthority) && item.interfaces != {"cli", "api", "mcp", "a2a"}
    case ContractIncomplete(id) =>
      id == item.id && item.interfaces == {"cli", "api", "mcp", "a2a"} &&
      (item.inputs == [] || item.outputs == [] || item.refusals == [])
    case SourceOwnershipEmpty(id) =>
      id == item.id && item.inputs != [] && item.outputs != [] && item.refusals != [] && item.sources == []
    case DoWithoutMutatingAuthority(id) =>
      id == item.id && Declared(item) && item.class_ == "DO" && !Mutates(item.requiredAuthority)
    case DoWithoutBroker(id) =>
      id == item.id && Declared(item) && item.class_ == "DO" && Mutates(item.requiredAuthority) && !item.brokerRequired
    case DoWithoutReceipt(id) =>
      id == item.id && Declared(item) && item.class_ == "DO" && Mutates(item.requiredAuthority) &&
      item.brokerRequired && !item.receiptRequired
    case SpuriousBroker(id) =>
      id == item.id && Declared(item) && item.class_ != "DO" && item.brokerRequired && !Mutates(item.requiredAuthority)
    case _ => false
  }

  lemma IdCharExactly(c: char)
    ensures IdChar(c) <==> 'a' <= c <= 'z' || '0' <= c <= '9' || c == '-' || c == '_'
  {
    if c == '-' { assert "-_"[0] == c; }
    if c == '_' { assert "-_"[1] == c; }
  }

  lemma IdExactly(id: string)
    ensures GoodId(id) <==> ProperId(id)
  {
    if ProperId(id) {
      forall i | 11 <= i < |id| ensures IdChar(id[i]) {
        assert id[11..][i - 11] == id[i] && id[i] in id[11..];
        IdCharExactly(id[i]);
      }
    }
  }

  lemma UnfitExactly(item: Item)
    ensures Unfit(item).None? <==> Declared(item) && Fenced(item)
    ensures Unfit(item).Some? ==> UnfitFor(item, Unfit(item).value)
  {
  }

  ghost function DepsOf(items: seq<Item>): Graph {
    if items == [] then map[]
    else DepsOf(items[..|items| - 1])[items[|items| - 1].id := items[|items| - 1].dependsOn]
  }

  ghost predicate SoundItem(item: Item) {
    match item
    case Item(id, _, _, _, _, _, _, _, _, _, _, _, _) => ProperId(id) && Declared(item) && Fenced(item)
  }

  lemma SoundItemExactly(item: Item)
    ensures GoodId(item.id) && Unfit(item).None? <==> SoundItem(item)
  {
    IdExactly(item.id);
    UnfitExactly(item);
  }

  ghost predicate SoundItems(items: seq<Item>) {
    && (forall i :: 0 <= i < |items| ==> SoundItem(items[i]))
    && (forall i, j :: 0 <= i < j < |items| ==> items[i].id != items[j].id)
  }

  /** What the verifier accepts. */
  ghost predicate Admitted(c: Catalog) {
    && c.schema == "chatman.capability-catalog.v1" && c.subject == "SELF" && c.capability != []
    && SoundItems(c.capability)
    && Closed(DepsOf(c.capability)) && Acyclic(DepsOf(c.capability))
  }

  ghost predicate Repeated(items: seq<Item>, i: nat)
    requires i < |items|
  {
    exists k :: 0 <= k < i && items[k].id == items[i].id
  }

  /** The first item that cannot be admitted, and the first check that it fails. */
  ghost predicate ItemRefused(items: seq<Item>, i: nat, error: Refusal) {
    i < |items| && SoundItems(items[..i]) &&
    if !ProperId(items[i].id) then error == BadId(items[i].id)
    else if Repeated(items, i) then error == Duplicate(items[i].id)
    else !SoundItem(items[i]) && UnfitFor(items[i], error)
  }

  lemma OneMoreItem(items: seq<Item>, i: nat)
    requires i < |items| && SoundItems(items[..i])
    ensures SoundItem(items[i]) && !Repeated(items, i) ==> SoundItems(items[..i + 1])
  {
    var more := items[..i + 1];
    if SoundItem(items[i]) && !Repeated(items, i) {
      forall k | 0 <= k <= i ensures SoundItem(more[k]) {
        if k < i { assert more[k] == items[..i][k]; }
      }
      forall j, k | 0 <= j < k <= i ensures more[j].id != more[k].id {
        if k < i { assert more[j] == items[..i][j] && more[k] == items[..i][k]; }
      }
    }
  }

  ghost predicate SomeItemRefused(items: seq<Item>, error: Refusal) {
    exists i: nat :: ItemRefused(items, i, error)
  }

  lemma RefusedIsUnsound(items: seq<Item>, i: nat, error: Refusal)
    requires ItemRefused(items, i, error)
    ensures !SoundItems(items) && SomeItemRefused(items, error)
  {
  }

  method CheckItems(items: seq<Item>) returns (refused: Option<Refusal>)
    ensures refused.None? <==> SoundItems(items)
    ensures refused.Some? ==> SomeItemRefused(items, refused.value)
  {
    var ids: set<string> := {};
    for i := 0 to |items|
      invariant SoundItems(items[..i])
      invariant forall id :: id in ids <==> exists k :: 0 <= k < i && items[k].id == id
    {
      var item := items[i];
      OneMoreItem(items, i);
      SoundItemExactly(item);
      IdExactly(item.id);
      if !GoodId(item.id) {
        RefusedIsUnsound(items, i, BadId(item.id));
        return Some(BadId(item.id));
      }
      if item.id in ids {
        RefusedIsUnsound(items, i, Duplicate(item.id));
        return Some(Duplicate(item.id));
      }
      ids := ids + {item.id};
      var unfit := Unfit(item);
      if unfit.Some? {
        UnfitExactly(item);
        RefusedIsUnsound(items, i, unfit.value);
        return unfit;
      }
    }
    assert items[..|items|] == items;
    return None;
  }

  method BuildDeps(items: seq<Item>) returns (g: Graph)
    ensures g == DepsOf(items)
  {
    g := map[];
    for i := 0 to |items|
      invariant g == DepsOf(items[..i])
    {
      assert items[..i + 1][..i] == items[..i];
      g := g[items[i].id := items[i].dependsOn];
    }
    assert items[..|items|] == items;
  }

  ghost predicate GraphRefused(g: Graph, error: Refusal) {
    match error
    case MissingDependency(n) => n in g && exists d :: d in g[n] && d !in g
    case Cycle(n) => Closed(g) && DependsOn(g, n, n)
    case _ => false
  }

  method CheckGraph(items: seq<Item>) returns (refused: Option<Refusal>)
    ensures refused.None? <==> Closed(DepsOf(items)) && Acyclic(DepsOf(items))
    ensures refused.Some? ==> GraphRefused(DepsOf(items), refused.value)
  {
    var g := BuildDeps(items);
    var dangling := DanglingDependency(g);
    if dangling.Some? {
      return Some(MissingDependency(dangling.value));
    }
    var cycle := CheckAcyclic(g);
    return if cycle.Some? then Some(Cycle(cycle.value)) else None;
  }

  /** The true ground of each refusal of a catalog. */
  ghost predicate CatalogRefused(c: Catalog, error: Refusal) {
    var grounded :=
      if c.schema != "chatman.capability-catalog.v1" then error == Schema
      else if c.subject != "SELF" then error == Subject
      else if c.capability == [] then error == CatalogEmpty
      else if SoundItems(c.capability) then GraphRefused(DepsOf(c.capability), error)
      else SomeItemRefused(c.capability, error);
    grounded
  }

  predicate ById(a: Item, b: Item) {
    Before(a.id, b.id)
  }

  /** All items, in the order of their identifiers. */
  ghost predicate ListsById(listing: seq<Item>, items: seq<Item>) {
    (forall i, j :: 0 <= i < j < |listing| ==> Before(listing[i].id, listing[j].id)) &&
    forall item :: item in listing <==> item in items
  }

  lemma SortedById(items: seq<Item>)
    requires SoundItems(items)
    ensures ListsById(SortBy(ById, items), items)
  {
    BeforeIsStrictTotal();
    forall i, j | 0 <= i < j < |items| ensures ById(items[i], items[j]) || ById(items[j], items[i]) {
      LexTotal(CharBefore, items[i].id, items[j].id);
    }
    SortBySorts(ById, items);
  }

  method Verify(c: Catalog) returns (r: Result<seq<Item>, Refusal>)
    ensures r.Ok? <==> Admitted(c)
    ensures r.Ok? ==> ListsById(r.value, c.capability)
    ensures r.Err? ==> CatalogRefused(c, r.error)
  {
    if c.schema != "chatman.capability-catalog.v1" {
      return Err(Schema);
    }
    if c.subject != "SELF" {
      return Err(Subject);
    }
    if c.capability == [] {
      return Err(CatalogEmpty);
    }
    var refused := CheckItems(c.capability);
    if refused.Some? {
      return Err(refused.value);
    }
    refused := CheckGraph(c.capability);
    if refused.Some? {
      return Err(refused.value);
    }
    SortedById(c.capability);
    return Ok(SortBy(ById, c.capability));
  }

  // ----- The frontier -----

  datatype Reason = DependencyNotAlive | ExactAuthorityMissing | DoNotAdmitted

  datatype Blocked = Blocked(item: Item, missing: seq<string>, reasons: seq<Reason>)

  /** The circumstances a frontier is computed under. */
  datatype View = View(observed: map<string, string>, allowed: set<string>, includeDo: bool)

  ghost predicate ObservedAlive(v: View, id: string) {
    id in v.observed && v.observed[id] == "ALIVE"
  }

  /** The dependencies that are not observed ALIVE, as the item names them. */
  ghost function NotAlive(deps: seq<string>, v: View): seq<string> {
    if deps == [] then []
    else
      var last := deps[|deps| - 1];
      NotAlive(deps[..|deps| - 1], v) + if ObservedAlive(v, last) then [] else [last]
  }

  lemma {:induction false} MissingMember(deps: seq<string>, v: View, d: string)
    ensures d in NotAlive(deps, v) <==> d in deps && !ObservedAlive(v, d)
  {
    if deps == [] {
    } else {
      MissingMember(deps[..|deps| - 1], v, d);
      assert deps == deps[..|deps| - 1] + [deps[|deps| - 1]];
    }
  }

  lemma MissingExactly(deps: seq<string>, v: View)
    ensures forall d :: d in NotAlive(deps, v) <==> d in deps && !ObservedAlive(v, d)
    ensures NotAlive(deps, v) == [] <==> forall d :: d in deps ==> ObservedAlive(v, d)
  {
    forall d ensures d in NotAlive(deps, v) <==> d in deps && !ObservedAlive(v, d) { MissingMember(deps, v, d); }
    if NotAlive(deps, v) != [] { assert NotAlive(deps, v)[0] in NotAlive(deps, v); }
  }

  method MissingOf(deps: seq<string>, v: View) returns (missing: seq<string>)
    ensures missing == NotAlive(deps, v)
  {
    missing := [];
    for i := 0 to |deps|
      invariant missing == NotAlive(deps[..i], v)
    {
      assert deps[..i + 1][..i] == deps[..i];
      if !(deps[i] in v.observed && v.observed[deps[i]] == "ALIVE") {
        missing := missing + [deps[i]];
      }
    }
    assert deps[..|deps|] == deps;
  }

  /** When an item may be used. */
  ghost predicate Usable(item: Item, v: View) {
    && (forall d :: d in item.dependsOn ==> ObservedAlive(v, d))
    && item.requiredAuthority in v.allowed
    && (item.class_ in {"OBSERVE", "SELECT", "CONSTRUCT"} ||
        (item.class_ == "DO" && v.includeDo && item.brokerRequired && item.receiptRequired))
  }

  function Reasons(item: Item, v: View, missing: seq<string>): seq<Reason> {
    (if missing != [] then [DependencyNotAlive] else []) +
    (if item.requiredAuthority !in v.allowed then [ExactAuthorityMissing] else []) +
    (if item.class_ == "DO" && !v.includeDo then [DoNotAdmitted] else [])
  }

  /** The three reasons, each given when it holds. */
  ghost predicate ReasonsRead(item: Item, v: View, reasons: seq<Reason>) {
    var reading :=
      && (DependencyNotAlive in reasons <==> exists d :: d in item.dependsOn && !ObservedAlive(v, d))
      && (ExactAuthorityMissing in reasons <==> item.requiredAuthority !in v.allowed)
      && (DoNotAdmitted in reasons <==> item.class_ == "DO" && !v.includeDo);
    reading
  }

  /** What is recorded of an item that may not be used. */
  ghost predicate BlockedReads(b: Blocked, v: View) {
    var reading :=
      b.missing == NotAlive(b.item.dependsOn, v) && ReasonsRead(b.item, v, b.reasons);
    reading
  }

  lemma ReasonsExactly(item: Item, v: View, missing: seq<string>)
    requires missing == NotAlive(item.dependsOn, v)
    ensures ReasonsRead(item, v, Reasons(item, v, missing))
  {
    MissingExactly(item.dependsOn, v);
  }

  /** The items up to the k-th that are on one side of the split, in their order. */
  ghost function Side(items: seq<Item>, v: View, usable: bool): seq<Item> {
    if items == [] then []
    else Side(items[..|items| - 1], v, usable) +
         if Usable(items[|items| - 1], v) == usable then [items[|items| - 1]] else []
  }

  ghost function ItemsOf(blocked: seq<Blocked>): seq<Item> {
    seq(|blocked|, i requires 0 <= i < |blocked| => blocked[i].item)
  }

  /** Judges one item: whether it may be used, and what is recorded if not. */
  method Judge(item: Item, v: View) returns (admitted: bool, record: Blocked)
    ensures admitted <==> Usable(item, v)
    ensures record.item == item && BlockedReads(record, v)
  {
    var missing := MissingOf(item.dependsOn, v);
    MissingExactly(item.dependsOn, v);
    ReasonsExactly(item, v, missing);
    var authorityOk := item.requiredAuthority in v.allowed;
    var doOk := v.includeDo && item.brokerRequired && item.receiptRequired && authorityOk;
    var nonDoOk := item.class_ in NON_CONSEQUENTIAL && authorityOk;
    admitted := missing == [] && if item.class_ == "DO" then doOk else nonDoOk;
    record := Blocked(item, missing, Reasons(item, v, missing));
  }

  method Frontier(items: seq<Item>, v: View) returns (frontier: seq<Item>, blocked: seq<Blocked>)
    ensures frontier == Side(items, v, true) && ItemsOf(blocked) == Side(items, v, false)
    ensures forall b :: b in blocked ==> BlockedReads(b, v)
  {
    frontier, blocked := [], [];
    for i := 0 to |items|
      invariant frontier == Side(items[..i], v, true) && ItemsOf(blocked) == Side(items[..i], v, false)
      invariant forall b :: b in blocked ==> BlockedReads(b, v)
    {
      assert items[..i + 1][..i] == items[..i];
      var admitted, record := Judge(items[i], v);
      if admitted {
        frontier := frontier + [items[i]];
      } else {
        assert ItemsOf(blocked + [record]) == ItemsOf(blocked) + [items[i]];
        blocked := blocked + [record];
      }
    }
    assert items[..|items|] == items;
  }

  /** The two sides share out the items: none is dropped, none appears twice. */
  lemma {:induction false} SidesPartition(items: seq<Item>, v: View)
    ensures multiset(Side(items, v, true)) + multiset(Side(items, v, false)) == multiset(items)
  {
    if items == [] {
    } else {
      SidesPartition(items[..|items| - 1], v);
      assert items == items[..|items| - 1] + [items[|items| - 1]];
    }
  }

  lemma {:induction false} SideMembers(items: seq<Item>, v: View, usable: bool, item: Item)
    ensures item in Side(items, v, usable) <==> item in items && Usable(item, v) == usable
  {
    if items == [] {
    } else {
      SideMembers(items[..|items| - 1], v, usable, item);
      assert items == items[..|items| - 1] + [items[|items| - 1]];
    }
  }

  lemma NoReason(reasons: seq<Reason>)
    ensures reasons == [] <==>
              DependencyNotAlive !in reasons && ExactAuthorityMissing !in reasons && DoNotAdmitted !in reasons
  {
    if reasons != [] {
      assert reasons[0] in reasons;
      match reasons[0] {
        case DependencyNotAlive =>
        case ExactAuthorityMissing =>
        case DoNotAdmitted =>
      }
    }
  }

  /** A blocked item is left without a reason exactly when its class is none of the four, or
      it is a DO that lacks its broker or its receipt while everything else would admit it. */
  lemma UnexplainedExactly(b: Blocked, v: View)
    requires BlockedReads(b, v) && !Usable(b.item, v)
    ensures b.reasons == [] <==>
              (forall d :: d in b.item.dependsOn ==> ObservedAlive(v, d)) && b.item.requiredAuthority in v.allowed &&
              (!KnownClass(b.item.class_) ||
               (b.item.class_ == "DO" && v.includeDo && !(b.item.brokerRequired && b.item.receiptRequired)))
  {
    NoReason(b.reasons);
  }

  /** A concrete input: an unfenced DO that everything else would admit is blocked without a word. */
  lemma UnfencedDoUnexplained(b: Blocked)
    requires b.item == Item("capability:x", "repository:y", "DO", "ALIVE", "merge", {"cli", "api", "mcp", "a2a"}, ["i"],
                            ["o"], ["r"], ["s"], false, true, [])
    requires BlockedReads(b, View(map[], {"merge"}, true))
    ensures !Usable(b.item, View(map[], {"merge"}, true)) && b.reasons == []
  {
    UnexplainedExactly(b, View(map[], {"merge"}, true));
  }

  /** In an admitted catalog neither can happen: everything blocked says why, and a DO on the
      frontier has a mutating authority that was granted, its broker and its receipt. */
  lemma AdmittedFrontierExplained(c: Catalog, v: View, item: Item)
    requires Admitted(c) && item in c.capability
    ensures forall b: Blocked :: b.item == item && BlockedReads(b, v) && !Usable(item, v) ==> b.reasons != []
    ensures Usable(item, v) && item.class_ == "DO" ==>
              v.includeDo && Mutates(item.requiredAuthority) && item.requiredAuthority in v.allowed &&
              item.brokerRequired && item.receiptRequired
  {
    var i :| 0 <= i < |c.capability| && c.capability[i] == item;
    forall b: Blocked | b.item == item && BlockedReads(b, v) && !Usable(item, v) ensures b.reasons != [] {
      UnexplainedExactly(b, v);
    }
  }

  /** More observed ALIVE, more authority, or DO included: nothing leaves the frontier. */
  lemma FrontierGrows(items: seq<Item>, v: View, w: View, item: Item)
    requires forall id :: ObservedAlive(v, id) ==> ObservedAlive(w, id)
    requires v.allowed <= w.allowed && (v.includeDo ==> w.includeDo)
    requires item in Side(items, v, true)
    ensures item in Side(items, w, true)
  {
    SideMembers(items, v, true, item);
    SideMembers(items, w, true, item);
  }
}
