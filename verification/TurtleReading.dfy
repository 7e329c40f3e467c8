/** Reading a projected unit back: a reader that tokenises the emitted block finds exactly the
    literals that the unit was written with. */
module TurtleReading {
  import opened TurtleText
  import opened TurtleProjection

  /** Lines as they are joined into the file. */
  function JoinLines(lines: seq<string>): string {
    if lines == [] then ""
    else if |lines| == 1 then lines[0]
    else JoinLines(lines[..|lines| - 1]) + "\n" + lines[|lines| - 1]
  }

  lemma JoinOneMore(lines: seq<string>, next: string)
    requires lines != []
    ensures JoinLines(lines + [next]) == JoinLines(lines) + "\n" + next
  {
    assert (lines + [next])[..|lines|] == lines;
  }

  lemma JoinAmended(lines: seq<string>, ending: string)
    requires lines != []
    ensures JoinLines(Amend(lines, ending)) == JoinLines(lines) + ending
  {
    var k := |lines| - 1;
    assert Amend(lines, ending)[..k] == lines[..k];
    if k > 0 {
      assert JoinLines(lines[..k]) + "\n" + (lines[k] + ending) == JoinLines(lines[..k]) + "\n" + lines[k] + ending;
    }
  }

  ghost predicate QuoteFree(s: string) {
    '"' !in s
  }

  /** A statement that a reader takes these values from; it does not begin with a quote. */
  ghost predicate Says(statement: string, values: seq<string>) {
    NoQuoteFirst(statement) && Reads(statement, values)
  }

  /** A reader takes the values from the statements as the emitter holds them. */
  ghost predicate HeldSays(statements: seq<string>, values: seq<string>) {
    statements != [] && Reads(JoinLines(Open(statements)), values)
  }

  lemma FirstStatement(statement: string, values: seq<string>)
    requires Says(statement, values)
    ensures HeldSays([statement], values)
  {
    assert Open([statement])[0] == statement + "" == statement;
  }

  /** Amending the last line and appending a statement keeps everything readable. */
  lemma OneMoreSaid(statements: seq<string>, values: seq<string>, next: string, more: seq<string>)
    requires HeldSays(statements, values) && Says(next, more)
    ensures HeldSays(statements + [next], values + more)
  {
    var lines := [] + Open(statements);
    assert lines == Open(statements);
    OpenOneMore([], statements, next);
    JoinAmended(lines, " ;");
    JoinOneMore(Amend(lines, " ;"), next);
    PlainOn(JoinLines(lines), values, " ;\n");
    assert JoinLines(lines) + " ;" + "\n" == JoinLines(lines) + " ;\n";
    ReadsOn(JoinLines(lines) + " ;\n", values, next, more);
    assert [] + Open(statements + [next]) == Open(statements + [next]);
  }

  lemma ClosedSays(statements: seq<string>, values: seq<string>)
    requires HeldSays(statements, values)
    ensures Reads(JoinLines(Block(statements) + [""]), values)
  {
    var lines := [] + Open(statements);
    assert lines == Open(statements);
    CloseBlock([], statements);
    assert [] + Block(statements) == Block(statements);
    JoinAmended(lines, " .");
    JoinOneMore(Block(statements), "");
    PlainOn(JoinLines(lines), values, " .\n");
    assert JoinLines(lines) + " ." + "\n" + "" == JoinLines(lines) + " .\n";
  }

  // ----- Single statements -----

  lemma NoLiteral(text: string)
    requires QuoteFree(text)
    ensures Says(text, [])
  {
    PlainReads(text);
  }

  lemma OneLiteral(before: string, value: string)
    requires QuoteFree(before) && before != ""
    ensures Says(before + Literal(value), [value])
  {
    PlainReads(before);
    LiteralReads(value);
    forall rest | NoQuoteFirst(rest)
      ensures ReadLiterals(before + Literal(value) + rest) == [value] + ReadLiterals(rest)
    {
      assert before + Literal(value) + rest == before + (Literal(value) + rest);
      PlainSkipped(before, Literal(value) + rest);
    }
  }

  lemma TwoLiterals(before: string, first: string, between: string, second: string)
    requires QuoteFree(before) && before != "" && QuoteFree(between) && between != ""
    ensures Says(before + Literal(first) + between + Literal(second), [first, second])
  {
    OneLiteral(before, first);
    OneLiteral(between, second);
    ReadsOn(before + Literal(first), [first], between + Literal(second), [second]);
    var whole := before + Literal(first) + between + Literal(second);
    assert before + Literal(first) + (between + Literal(second)) == whole;
    assert [first] + [second] == [first, second];
    assert whole[0] == before[0];
  }

  // ----- The statements of a unit -----

  /** No name that goes into an IRI brings a quote with it. Names of units and targets are
      percent-encoded; the supplier, the kind and the disposition are not. */
  ghost predicate SafeNames(s: Subject, u: Unit, quote: Quoting) {
    && QuoteFree(UnitIri(s, u, quote)) && QuoteFree(SubjectIri(s))
    && (Set(u.disposition) ==> QuoteFree(u.disposition.value))
    && forall t :: t in u.targets ==> QuoteFree(quote(t))
  }

  lemma TwoMoreSaid(held: seq<string>, said: seq<string>, a: string, v: seq<string>, b: string, w: seq<string>)
    requires HeldSays(held, said) && Says(a, v) && Says(b, w)
    ensures HeldSays(held + [a, b], said + v + w)
  {
    OneMoreSaid(held, said, a, v);
    OneMoreSaid(held + [a], said + v, b, w);
    AppendAssociative(held, [a], [b]);
    assert [a] + [b] == [a, b];
  }

  lemma SixStatements(a: string, b: string, bs: seq<string>, c: string, cs: seq<string>, d: string, ds: seq<string>,
                      e: string, es: seq<string>, f: string)
    requires Says(a, []) && Says(b, bs) && Says(c, cs) && Says(d, ds) && Says(e, es) && Says(f, [])
    ensures HeldSays([a, b, c, d, e, f], bs + cs + ds + es)
  {
    FirstStatement(a, []);
    TwoMoreSaid([a], [], b, bs, c, cs);
    assert [a] + [b, c] == [a, b, c] && [] + bs == bs;
    TwoMoreSaid([a, b, c], bs + cs, d, ds, e, es);
    assert [a, b, c] + [d, e] == [a, b, c, d, e];
    OneMoreSaid([a, b, c, d, e], bs + cs + ds + es, f, []);
    assert [a, b, c, d, e] + [f] == [a, b, c, d, e, f];
    assert bs + cs + ds + es + [] == bs + cs + ds + es;
  }

  lemma SixLines(entity: string, id: string, sha: string, kind: string, name: string, url: string, derived: string)
    requires QuoteFree(entity) && QuoteFree(derived)
    ensures HeldSays([entity, "  dcterms:identifier " + Literal(id) + ", " + Literal(sha),
                      "  dcterms:type " + Literal(kind), "  dcterms:title " + Literal(name),
                      "  dcterms:source " + Literal(url), derived],
                     [id, sha, kind, name, url])
  {
    NoLiteral(entity);
    TwoLiterals("  dcterms:identifier ", id, ", ", sha);
    OneLiteral("  dcterms:type ", kind);
    OneLiteral("  dcterms:title ", name);
    OneLiteral("  dcterms:source ", url);
    NoLiteral(derived);
    SixStatements(entity, "  dcterms:identifier " + Literal(id) + ", " + Literal(sha), [id, sha],
                  "  dcterms:type " + Literal(kind), [kind], "  dcterms:title " + Literal(name), [name],
                  "  dcterms:source " + Literal(url), [url], derived);
    assert [id, sha] + [kind] + [name] + [url] == [id, sha, kind, name, url];
  }

  ghost function CoreValues(s: Subject, u: Unit): seq<string> {
    [u.id, u.objectSha, u.kind, u.name, SourceUrl(s, u)]
  }

  lemma CoreSays(s: Subject, u: Unit, quote: Quoting)
    requires SafeNames(s, u, quote)
    ensures HeldSays(CoreStatements(s, u, quote), CoreValues(s, u))
  {
    SixLines(Iri(UnitIri(s, u, quote)) + " a prov:Entity", u.id, u.objectSha, u.kind, u.name, SourceUrl(s, u),
             "  prov:wasDerivedFrom " + Iri(SubjectIri(s)));
  }

  ghost function PatternValues(u: Unit): seq<string> {
    if Set(u.patternId) then [u.patternId.value] else []
  }

  lemma OptionalSaid(statements: seq<string>, values: seq<string>, u: Unit)
    requires HeldSays(statements, values)
    requires Set(u.disposition) ==> QuoteFree(u.disposition.value)
    ensures HeldSays(statements + OptionalStatements(u), values + PatternValues(u))
  {
    var held, said := statements, values;
    if Set(u.disposition) {
      var line := "  dcterms:subject " + Iri("urn:chatman:disposition:" + u.disposition.value);
      NoLiteral(line);
      OneMoreSaid(held, said, line, []);
      held, said := held + [line], said + [];
    }
    if Set(u.patternId) {
      OneLiteral("  dcterms:relation ", u.patternId.value);
      OneMoreSaid(held, said, "  dcterms:relation " + Literal(u.patternId.value), [u.patternId.value]);
      held, said := held + ["  dcterms:relation " + Literal(u.patternId.value)], said + [u.patternId.value];
    }
    assert held == statements + OptionalStatements(u);
    assert said == values + PatternValues(u);
  }

  lemma {:induction false} TargetsSaid(statements: seq<string>, values: seq<string>, targets: seq<string>,
      quote: Quoting)
    requires HeldSays(statements, values) && forall t :: t in targets ==> QuoteFree(quote(t))
    ensures HeldSays(statements + TargetStatements(targets, quote), values)
  {
    if targets == [] {
      assert statements + TargetStatements(targets, quote) == statements;
    } else {
      var k := |targets| - 1;
      var line := TargetStatement(targets[k], quote);
      TargetsSaid(statements, values, targets[..k], quote);
      NoLiteral(line);
      OneMoreSaid(statements + TargetStatements(targets[..k], quote), values, line, []);
      assert values + [] == values;
      AppendAssociative(statements, TargetStatements(targets[..k], quote), [line]);
      assert TargetStatements(targets[..k], quote) + [line] == TargetStatements(targets, quote);
    }
  }

  /** What a reader finds in the text of a unit: its identifier, object, kind, name and source,
      and its pattern if it has one; no literal runs into another, whatever its content. */
  lemma UnitReadsBack(s: Subject, u: Unit, quote: Quoting)
    requires SafeNames(s, u, quote)
    ensures Reads(JoinLines(UnitLines(s, u, quote)), CoreValues(s, u) + PatternValues(u))
  {
    var core := CoreStatements(s, u, quote);
    CoreSays(s, u, quote);
    OptionalSaid(core, CoreValues(s, u), u);
    TargetsSaid(core + OptionalStatements(u), CoreValues(s, u) + PatternValues(u), u.targets, quote);
    ClosedSays(Statements(s, u, quote), CoreValues(s, u) + PatternValues(u));
  }
}
