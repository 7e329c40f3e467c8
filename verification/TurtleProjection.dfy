/** The projection of an external inventory into a Turtle graph: the statement blocks that the
    line-by-line emitter leaves behind, and the sorting of units into edges and unresolved. */
module TurtleProjection {
  import opened Prelude
  import opened TurtleText

  datatype Unit = Unit(id: string, kind: string, name: string, sourcePath: string, objectSha: string,
                       objectType: string, state: string, standing: string,
                       disposition: Option<string>, patternId: Option<string>, targets: seq<string>)

  datatype Subject = Subject(supplier: string, repository: string, sha: string)

  datatype Refusal =
    | MalformedUnit | UnitStanding(id: string) | TargetCapability(id: string)
    | DanglingTarget(id: string, target: string)

  datatype EdgeRecord = EdgeRecord(unit: string, patternId: Option<string>, disposition: Option<string>, target: string)

  datatype Gap = Gap(unit: string, patternId: Option<string>, disposition: Option<string>)

  /** How a text is percent-encoded for use inside an IRI. */
  type Quoting = string -> string

  ghost function Iri(value: string): string {
    "<" + value + ">"
  }

  ghost function SubjectIri(s: Subject): string {
    "urn:chatman:external-subject:" + s.supplier + ":" + s.sha
  }

  ghost function UnitIri(s: Subject, u: Unit, quote: Quoting): string {
    "urn:chatman:external:" + s.supplier + ":" + s.sha + ":" + u.kind + ":" + quote(u.name)
  }

  ghost function SourceUrl(s: Subject, u: Unit): string {
    var kind := if u.objectType == "dir" then "tree" else "blob";
    "https://github.com/" + s.repository + "/" + kind + "/" + s.sha + "/" + u.sourcePath
  }

  ghost predicate Set(o: Option<string>) {
    o.Some? && o.value != ""
  }

  // ----- What a unit's block consists of -----

  ghost function CoreStatements(s: Subject, u: Unit, quote: Quoting): seq<string> {
    [Iri(UnitIri(s, u, quote)) + " a prov:Entity",
     "  dcterms:identifier " + Literal(u.id) + ", " + Literal(u.objectSha),
     "  dcterms:type " + Literal(u.kind),
     "  dcterms:title " + Literal(u.name),
     "  dcterms:source " + Literal(SourceUrl(s, u)),
     "  prov:wasDerivedFrom " + Iri(SubjectIri(s))]
  }

  ghost function OptionalStatements(u: Unit): seq<string> {
    (if Set(u.disposition)
     then ["  dcterms:subject " + Iri("urn:chatman:disposition:" + u.disposition.value)] else []) +
    (if Set(u.patternId) then ["  dcterms:relation " + Literal(u.patternId.value)] else [])
  }

  ghost function TargetStatement(target: string, quote: Quoting): string {
    "  dcterms:relation " + Iri("urn:chatman:capability:" + quote(target))
  }

  ghost function TargetStatements(targets: seq<string>, quote: Quoting): seq<string> {
    seq(|targets|, i requires 0 <= i < |targets| => TargetStatement(targets[i], quote))
  }

  /** The statements about a unit, in order, without their terminators. */
  ghost function Statements(s: Subject, u: Unit, quote: Quoting): seq<string> {
    CoreStatements(s, u, quote) + OptionalStatements(u) + TargetStatements(u.targets, quote)
  }

  /** One block of Turtle: every statement but the last goes on, and the last one ends it. */
  ghost function Block(statements: seq<string>): seq<string> {
    seq(|statements|, i requires 0 <= i < |statements| =>
      statements[i] + if i < |statements| - 1 then " ;" else " .")
  }

  /** A block still open at its last line, as the emitter holds it between appends. */
  ghost function Open(statements: seq<string>): seq<string> {
    seq(|statements|, i requires 0 <= i < |statements| =>
      statements[i] + if i < |statements| - 1 then " ;" else "")
  }

  // ----- Emitting -----

  function Amend(lines: seq<string>, ending: string): seq<string>
    requires lines != []
  {
    lines[|lines| - 1 := lines[|lines| - 1] + ending]
  }

  /** Closing the last line with a semicolon and appending one more keeps the block open. */
  lemma OpenOneMore(before: seq<string>, statements: seq<string>, next: string)
    requires statements != []
    ensures Amend(before + Open(statements), " ;") + [next] == before + Open(statements + [next])
  {
    var lines := before + Open(statements);
    var grown := Amend(lines, " ;") + [next];
    var goal := before + Open(statements + [next]);
    forall i | 0 <= i < |grown| ensures grown[i] == goal[i] {
      if |before| <= i < |lines| - 1 {
        assert grown[i] == Open(statements)[i - |before|];
      } else if i == |lines| - 1 {
        var last := statements[|statements| - 1];
        assert last + "" == last;
        assert grown[i] == last + " ;";
      } else if i == |lines| {
        assert goal[i] == next + "" == next;
      }
    }
  }

  lemma CloseBlock(before: seq<string>, statements: seq<string>)
    requires statements != []
    ensures Amend(before + Open(statements), " .") == before + Block(statements)
  {
    var lines := before + Open(statements);
    var closed := Amend(lines, " .");
    forall i | 0 <= i < |closed| ensures closed[i] == (before + Block(statements))[i] {
      if i == |lines| - 1 {
        var last := statements[|statements| - 1];
        assert last + "" == last;
      }
    }
  }

  method Append(lines: seq<string>, next: string, ghost before: seq<string>, ghost statements: seq<string>)
    returns (grown: seq<string>)
    requires statements != [] && lines == before + Open(statements)
    ensures grown == before + Open(statements + [next])
  {
    OpenOneMore(before, statements, next);
    grown := Amend(lines, " ;") + [next];
  }

  ghost predicate WellFormed(u: Unit) {
    u.id != "" && u.kind != "" && u.name != "" && u.sourcePath != "" && u.objectSha != "" && u.objectType != ""
  }

  ghost predicate Candidate(u: Unit) {
    u.state == "CANDIDATE" && u.standing == "NONE"
  }

  ghost predicate Acceptable(u: Unit, capabilities: set<string>) {
    WellFormed(u) && Candidate(u) && forall t :: t in u.targets ==> t != "" && t in capabilities
  }

  ghost function EdgesOf(u: Unit): seq<EdgeRecord> {
    seq(|u.targets|, i requires 0 <= i < |u.targets| => EdgeRecord(u.id, u.patternId, u.disposition, u.targets[i]))
  }

  method EmitOptional(lines: seq<string>, u: Unit, ghost before: seq<string>, ghost core: seq<string>)
    returns (grown: seq<string>)
    requires core != [] && lines == before + Open(core)
    ensures grown == before + Open(core + OptionalStatements(u))
  {
    ghost var statements := core;
    grown := lines;
    if u.disposition.Some? && u.disposition.value != "" {
      var line := "  dcterms:subject " + ("<" + ("urn:chatman:disposition:" + u.disposition.value) + ">");
      grown := Append(grown, line, before, statements);
      statements := statements + [line];
    }
    if u.patternId.Some? && u.patternId.value != "" {
      var line := "  dcterms:relation " + Literal(u.patternId.value);
      grown := Append(grown, line, before, statements);
      statements := statements + [line];
    }
    assert statements == core + OptionalStatements(u);
  }

  /** The six opening lines as they are written in one go. */
  lemma CoreIsOpen(s: Subject, u: Unit, quote: Quoting)
    ensures Open(CoreStatements(s, u, quote)) ==
              [Iri(UnitIri(s, u, quote)) + " a prov:Entity" + " ;",
               "  dcterms:identifier " + Literal(u.id) + ", " + Literal(u.objectSha) + " ;",
               "  dcterms:type " + Literal(u.kind) + " ;",
               "  dcterms:title " + Literal(u.name) + " ;",
               "  dcterms:source " + Literal(SourceUrl(s, u)) + " ;",
               "  prov:wasDerivedFrom " + Iri(SubjectIri(s))]
  {
    var last := "  prov:wasDerivedFrom " + Iri(SubjectIri(s));
    assert last + "" == last;
    assert CoreStatements(s, u, quote)[5] == last;
  }

  method EmitUnit(lines: seq<string>, s: Subject, u: Unit, quote: Quoting) returns (grown: seq<string>)
    ensures grown == lines + Block(Statements(s, u, quote)) + [""]
  {
    var unitIri := "urn:chatman:external:" + s.supplier + ":" + s.sha + ":" + u.kind + ":" + quote(u.name);
    var subjectIri := "urn:chatman:external-subject:" + s.supplier + ":" + s.sha;
    var kind := if u.objectType == "dir" then "tree" else "blob";
    var url := "https://github.com/" + s.repository + "/" + kind + "/" + s.sha + "/" + u.sourcePath;
    CoreIsOpen(s, u, quote);
    ghost var statements := CoreStatements(s, u, quote);
    grown := lines +
      [("<" + unitIri + ">") + " a prov:Entity" + " ;",
       "  dcterms:identifier " + Literal(u.id) + ", " + Literal(u.objectSha) + " ;",
       "  dcterms:type " + Literal(u.kind) + " ;",
       "  dcterms:title " + Literal(u.name) + " ;",
       "  dcterms:source " + Literal(url) + " ;",
       "  prov:wasDerivedFrom " + ("<" + subjectIri + ">")];
    grown := EmitOptional(grown, u, lines, statements);
    statements := statements + OptionalStatements(u);
    ghost var fixed := statements;
    for i := 0 to |u.targets|
      invariant statements != [] && statements == fixed + TargetStatements(u.targets[..i], quote)
      invariant grown == lines + Open(statements)
    {
      var line := "  dcterms:relation " + ("<" + ("urn:chatman:capability:" + quote(u.targets[i])) + ">");
      assert line == TargetStatement(u.targets[i], quote);
      grown := Append(grown, line, lines, statements);
      statements := statements + [line];
      assert TargetStatements(u.targets[..i + 1], quote) == TargetStatements(u.targets[..i], quote) + [line];
    }
    assert u.targets[..|u.targets|] == u.targets;
    assert statements == Statements(s, u, quote);
    CloseBlock(lines, statements);
    grown := Amend(grown, " .") + [""];
  }

  /** What is wrong with a target, if anything. */
  ghost function TargetDefect(u: Unit, target: string, capabilities: set<string>): Option<Refusal> {
    if target == "" then Some(TargetCapability(u.id))
    else if target !in capabilities then Some(DanglingTarget(u.id, target))
    else None
  }

  /** The first bad target, and what is wrong with it. */
  ghost predicate TargetRefused(u: Unit, capabilities: set<string>, i: nat, error: Refusal) {
    i < |u.targets| && TargetDefect(u, u.targets[i], capabilities) == Some(error) &&
    forall k :: 0 <= k < i ==> TargetDefect(u, u.targets[k], capabilities).None?
  }

  /** Checks the targets in order and records an edge for each. */
  method CollectEdges(u: Unit, capabilities: set<string>) returns (r: Result<seq<EdgeRecord>, Refusal>)
    ensures r.Ok? <==> forall t :: t in u.targets ==> t != "" && t in capabilities
    ensures r.Ok? ==> r.value == EdgesOf(u)
    ensures r.Err? ==> exists i: nat :: TargetRefused(u, capabilities, i, r.error)
  {
    var edges: seq<EdgeRecord> := [];
    for i := 0 to |u.targets|
      invariant |edges| == i && forall k :: 0 <= k < i ==> edges[k] == EdgesOf(u)[k]
      invariant forall k :: 0 <= k < i ==> u.targets[k] != "" && u.targets[k] in capabilities
    {
      assert u.targets[i] in u.targets;
      if u.targets[i] == "" {
        assert TargetRefused(u, capabilities, i, TargetCapability(u.id));
        return Err(TargetCapability(u.id));
      }
      if u.targets[i] !in capabilities {
        assert TargetRefused(u, capabilities, i, DanglingTarget(u.id, u.targets[i]));
        return Err(DanglingTarget(u.id, u.targets[i]));
      }
      edges := edges + [EdgeRecord(u.id, u.patternId, u.disposition, u.targets[i])];
    }
    return Ok(edges);
  }

  ghost function UnitLines(s: Subject, u: Unit, quote: Quoting): seq<string> {
    Block(Statements(s, u, quote)) + [""]
  }

  ghost function GapsOf(u: Unit): seq<Gap> {
    if u.targets == [] then [Gap(u.id, u.patternId, u.disposition)] else []
  }

  // ----- The whole inventory -----

  /** What has been written so far: the lines, the edges and the units without a target. */
  datatype Projection = Projection(lines: seq<string>, edges: seq<EdgeRecord>, gaps: seq<Gap>)

  ghost function Grown(p: Projection, s: Subject, u: Unit, quote: Quoting): Projection {
    Projection(p.lines + UnitLines(s, u, quote), p.edges + EdgesOf(u), p.gaps + GapsOf(u))
  }

  /** The units' blocks, edges and gaps, unit after unit. */
  ghost function ProjectionOf(s: Subject, units: seq<Unit>, quote: Quoting): Projection {
    if units == [] then Projection([], [], [])
    else Grown(ProjectionOf(s, units[..|units| - 1], quote), s, units[|units| - 1], quote)
  }

  lemma ProjectionOneMore(s: Subject, units: seq<Unit>, i: nat, quote: Quoting)
    requires i < |units|
    ensures ProjectionOf(s, units[..i + 1], quote) == Grown(ProjectionOf(s, units[..i], quote), s, units[i], quote)
  {
    assert units[..i + 1][..i] == units[..i];
  }

  ghost predicate UnitRefused(u: Unit, capabilities: set<string>, error: Refusal) {
    var grounded :=
      if !WellFormed(u) then error == MalformedUnit
      else if !Candidate(u) then error == UnitStanding(u.id)
      else exists i: nat :: TargetRefused(u, capabilities, i, error);
    grounded
  }

  method ProjectUnit(p: Projection, s: Subject, u: Unit, capabilities: set<string>, quote: Quoting)
    returns (r: Result<Projection, Refusal>)
    ensures r.Ok? <==> Acceptable(u, capabilities)
    ensures r.Err? ==> UnitRefused(u, capabilities, r.error)
    ensures r.Ok? ==> r.value == Grown(p, s, u, quote)
  {
    if u.id == "" || u.kind == "" || u.name == "" || u.sourcePath == "" || u.objectSha == "" || u.objectType == "" {
      return Err(MalformedUnit);
    }
    if u.state != "CANDIDATE" || u.standing != "NONE" {
      return Err(UnitStanding(u.id));
    }
    var edges :- CollectEdges(u, capabilities);
    var lines := EmitUnit(p.lines, s, u, quote);
    assert lines == p.lines + UnitLines(s, u, quote);
    var gaps := p.gaps;
    if u.targets == [] {
      gaps := gaps + [Gap(u.id, u.patternId, u.disposition)];
    }
    return Ok(Projection(lines, p.edges + edges, gaps));
  }

  ghost predicate AllAcceptable(units: seq<Unit>, capabilities: set<string>) {
    units == [] || (AllAcceptable(units[..|units| - 1], capabilities) && Acceptable(units[|units| - 1], capabilities))
  }

  lemma {:induction false} AllAcceptableIff(units: seq<Unit>, capabilities: set<string>)
    ensures AllAcceptable(units, capabilities) <==> forall u :: u in units ==> Acceptable(u, capabilities)
  {
    if units == [] {
    } else {
      var k := |units| - 1;
      AllAcceptableIff(units[..k], capabilities);
      assert units == units[..k] + [units[k]];
    }
  }

  lemma OneMoreAcceptable(units: seq<Unit>, i: nat, capabilities: set<string>)
    requires i < |units|
    ensures AllAcceptable(units[..i + 1], capabilities) <==>
              AllAcceptable(units[..i], capabilities) && Acceptable(units[i], capabilities)
    ensures AllAcceptable(units, capabilities) ==> Acceptable(units[i], capabilities)
  {
    assert units[..i + 1][..i] == units[..i];
    AllAcceptableIff(units, capabilities);
  }

  /** The first unit that is refused, and why. */
  ghost predicate FirstRefused(units: seq<Unit>, capabilities: set<string>, i: nat, error: Refusal) {
    i < |units| && AllAcceptable(units[..i], capabilities) && UnitRefused(units[i], capabilities, error)
  }

  /** The units are projected in order; one that is unacceptable refuses the projection. */
  method ProjectUnits(s: Subject, units: seq<Unit>, capabilities: set<string>, quote: Quoting)
    returns (r: Result<Projection, Refusal>)
    ensures r.Ok? <==> AllAcceptable(units, capabilities)
    ensures r.Ok? ==> r.value == ProjectionOf(s, units, quote)
    ensures r.Err? ==> exists i: nat :: FirstRefused(units, capabilities, i, r.error)
  {
    var p := Projection([], [], []);
    for i := 0 to |units|
      invariant AllAcceptable(units[..i], capabilities)
      invariant p == ProjectionOf(s, units[..i], quote)
    {
      OneMoreAcceptable(units, i, capabilities);
      var grown := ProjectUnit(p, s, units[i], capabilities, quote);
      if grown.Err? {
        assert FirstRefused(units, capabilities, i, grown.error);
        return Err(grown.error);
      }
      p := grown.value;
      ProjectionOneMore(s, units, i, quote);
    }
    assert units[..|units|] == units;
    return Ok(p);
  }

  ghost predicate EndsWith(s: string, ending: string) {
    |s| >= |ending| && s[|s| - |ending|..] == ending
  }

  /** In every block the lines before the last go on with a semicolon, and only the last is
      ended with a full stop, however many targets there are. */
  lemma BlockTerminated(s: Subject, u: Unit, quote: Quoting, i: nat)
    requires i < |Block(Statements(s, u, quote))|
    ensures var b := Block(Statements(s, u, quote));
            |b| == 6 + |OptionalStatements(u)| + |u.targets| &&
            (EndsWith(b[i], " ;") <==> i < |b| - 1) && (EndsWith(b[i], " .") <==> i == |b| - 1)
  {
    var b := Block(Statements(s, u, quote));
    var statement := Statements(s, u, quote)[i];
    if i < |b| - 1 { assert b[i] == statement + " ;"; } else { assert b[i] == statement + " ."; }
    assert b[i][|b[i]| - 2..] == if i < |b| - 1 then " ;" else " .";
    assert " ;"[1] != " ."[1];
  }

  ghost predicate HasEdge(edges: seq<EdgeRecord>, id: string) {
    exists e :: e in edges && e.unit == id
  }

  ghost predicate HasGap(gaps: seq<Gap>, id: string) {
    exists g :: g in gaps && g.unit == id
  }

  lemma EdgesAdded(before: seq<EdgeRecord>, u: Unit, id: string)
    ensures HasEdge(before + EdgesOf(u), id) <==> HasEdge(before, id) || (u.id == id && u.targets != [])
  {
    var after := before + EdgesOf(u);
    if e :| e in before && e.unit == id { assert e in after; }
    if u.id == id && u.targets != [] { assert after[|before|] in after && after[|before|].unit == id; }
  }

  lemma GapsAdded(before: seq<Gap>, u: Unit, id: string)
    ensures HasGap(before + GapsOf(u), id) <==> HasGap(before, id) || (u.id == id && u.targets == [])
  {
    var after := before + GapsOf(u);
    if g :| g in before && g.unit == id { assert g in after; }
    if u.id == id && u.targets == [] { assert after[|before|] in after && after[|before|].unit == id; }
  }

  /** A unit is among the edges if and only if some unit with its identifier has targets, and
      among the unresolved if and only if some unit with its identifier has none. */
  lemma {:induction false} RecordedExactly(s: Subject, units: seq<Unit>, quote: Quoting, id: string)
    ensures HasEdge(ProjectionOf(s, units, quote).edges, id) <==>
              exists i :: 0 <= i < |units| && units[i].id == id && units[i].targets != []
    ensures HasGap(ProjectionOf(s, units, quote).gaps, id) <==>
              exists i :: 0 <= i < |units| && units[i].id == id && units[i].targets == []
  {
    if units == [] {
    } else {
      var k := |units| - 1;
      var before := ProjectionOf(s, units[..k], quote);
      RecordedExactly(s, units[..k], quote, id);
      EdgesAdded(before.edges, units[k], id);
      GapsAdded(before.gaps, units[k], id);
      UnitsAdded(units, id);
    }
  }

  lemma UnitsAdded(units: seq<Unit>, id: string)
    requires units != []
    ensures var k := |units| - 1;
            && ((exists i :: 0 <= i < |units| && units[i].id == id && units[i].targets != []) <==>
                 (exists i :: 0 <= i < k && units[..k][i].id == id && units[..k][i].targets != []) ||
                 (units[k].id == id && units[k].targets != []))
            && ((exists i :: 0 <= i < |units| && units[i].id == id && units[i].targets == []) <==>
                 (exists i :: 0 <= i < k && units[..k][i].id == id && units[..k][i].targets == []) ||
                 (units[k].id == id && units[k].targets == []))
  {
  }

  /** A concrete input: of two units with one identifier, one has a target and one has not, and
      the identifier is in both lists. */
  lemma SharedIdInBoth(s: Subject, u: Unit, quote: Quoting)
    ensures var units := [u.(targets := ["t"]), u.(targets := [])];
            var p := ProjectionOf(s, units, quote);
            HasEdge(p.edges, u.id) && HasGap(p.gaps, u.id)
  {
    var units := [u.(targets := ["t"]), u.(targets := [])];
    RecordedExactly(s, units, quote, u.id);
    assert units[0].targets != [] && units[1].targets == [];
  }

  /** A unit whose identifier is its own is among the edges or among the unresolved, and
      never among both. */
  lemma EdgesOrGaps(s: Subject, units: seq<Unit>, quote: Quoting, i: nat)
    requires i < |units| && forall j :: 0 <= j < |units| && j != i ==> units[j].id != units[i].id
    ensures HasEdge(ProjectionOf(s, units, quote).edges, units[i].id) <==> units[i].targets != []
    ensures HasGap(ProjectionOf(s, units, quote).gaps, units[i].id) <==> units[i].targets == []
  {
    RecordedExactly(s, units, quote, units[i].id);
  }
}
