/** IRIs of RDF 1.1 Turtle (IRIREF, section 6.5 of the W3C recommendation): which of the IRIs
    that the projector writes down are legal, and that a unit with legal ones reads back. */
module TurtleIri {
  import opened TurtleText
  import opened TurtleProjection
  import opened TurtleReading

  predicate IriChar(c: char) {
    c as int > 0x20 && c !in "<>\"{}|^`\\"
  }

  /** The length of the numeric escape a text starts with, or zero. */
  function NumericEscape(s: string): nat {
    if |s| >= 6 && s[1] == 'u' && AllHex(s[2..6]) then 6
    else if |s| >= 10 && s[1] == 'U' && AllHex(s[2..10]) then 10
    else 0
  }

  function IriElement(s: string): nat {
    if s == "" then 0
    else if s[0] == '\\' then NumericEscape(s)
    else if IriChar(s[0]) then 1
    else 0
  }

  /** Where the longest run of elements of an IRI ends. */
  function ScanIri(s: string): (n: nat)
    ensures n <= |s|
  {
    var k := IriElement(s);
    if k == 0 then 0 else k + ScanIri(s[k..])
  }

  /** IRIREF at the start of a text: the length of the token, or zero. */
  function ReadIri(text: string): nat {
    if text == "" || text[0] != '<' then 0
    else
      var n := ScanIri(text[1..]);
      if n + 1 < |text| && text[n + 1] == '>' then n + 2 else 0
  }

  predicate LegalIri(v: string) {
    ScanIri(v) == |v|
  }

  // ----- Scanning past the end of a name -----

  /** A character that neither continues nor begins an escape. */
  predicate EndsEscape(c: char) {
    !IsHex(c) && c != 'u' && c != 'U' && c != '\\'
  }

  lemma HexBefore(v: string, c: char, rest: string, n: nat)
    requires EndsEscape(c) && 2 <= n
    ensures |v| >= n ==> (v + [c] + rest)[2..n] == v[2..n]
    ensures 2 <= |v| < n <= |v + [c] + rest| ==> !AllHex((v + [c] + rest)[2..n])
  {
    var s := v + [c] + rest;
    if 2 <= |v| < n <= |s| { assert s[2..n][|v| - 2] == c; }
  }

  lemma SameElement(v: string, c: char, rest: string)
    requires EndsEscape(c) && v != ""
    ensures IriElement(v + [c] + rest) == IriElement(v)
  {
    var s := v + [c] + rest;
    HexBefore(v, c, rest, 6);
    HexBefore(v, c, rest, 10);
    assert |v| == 1 ==> s[1] == c;
    assert |v| >= 2 ==> s[1] == v[1];
  }

  lemma {:induction false} ScanAcross(v: string, c: char, rest: string)
    requires EndsEscape(c)
    ensures ScanIri(v + [c] + rest) ==
              if LegalIri(v) && IriChar(c) then |v| + 1 + ScanIri(rest) else ScanIri(v)
  {
    var s := v + [c] + rest;
    if v == "" {
      assert s == [c] + rest && s[1..] == rest;
      PlainElement(c, rest);
    } else {
      SameElement(v, c, rest);
      var k := IriElement(v);
      if k > 0 {
        assert s[k..] == v[k..] + [c] + rest;
        ScanAcross(v[k..], c, rest);
      }
    }
  }

  lemma PlainElement(c: char, rest: string)
    ensures IriChar(c) ==> IriElement([c] + rest) == 1
    ensures !IriChar(c) && c != '\\' ==> IriElement([c] + rest) == 0
  {
  }

  // ----- Legal names -----

  /** An IRI written between its brackets is read as exactly one token if and only if it is
      legal. */
  lemma IriIsOneToken(v: string, rest: string)
    ensures ReadIri(Iri(v) + rest) == |Iri(v)| <==> LegalIri(v)
  {
    var text := Iri(v) + rest;
    assert text[1..] == v + ['>'] + rest;
    ScanAcross(v, '>', rest);
    assert text[|v| + 1] == '>';
  }

  /** Names joined by a colon are legal if and only if both are: no escape spans the colon. */
  lemma LegalJoined(a: string, b: string)
    ensures LegalIri(a + ":" + b) <==> LegalIri(a) && LegalIri(b)
  {
    ScanAcross(a, ':', b);
    assert a + ":" + b == a + [':'] + b;
  }

  predicate PlainIri(v: string) {
    forall i :: 0 <= i < |v| ==> IriChar(v[i])
  }

  lemma {:induction false} PlainIsLegal(v: string)
    requires PlainIri(v)
    ensures LegalIri(v)
  {
    if v == "" {
    } else {
      PlainIsLegal(v[1..]);
    }
  }

  lemma {:induction false} LegalHasNoQuote(v: string)
    requires LegalIri(v)
    ensures QuoteFree(v)
  {
    if v == "" {
    } else {
      var k := IriElement(v);
      LegalHasNoQuote(v[k..]);
      assert v == v[..k] + v[k..];
      if v[0] == '\\' { EscapeHasNoQuote(v); } else { assert v[..1] == [v[0]]; }
    }
  }

  lemma EscapeHasNoQuote(v: string)
    requires v != "" && v[0] == '\\' && NumericEscape(v) > 0
    ensures QuoteFree(v[..NumericEscape(v)])
  {
    var k := NumericEscape(v);
    forall i | 0 <= i < k ensures v[i] != '"' {
      if i >= 2 { assert v[2..k][i - 2] == v[i]; }
    }
  }

  // ----- The IRIs of a unit -----

  /** Percent-encoding leaves only letters, digits, marks and percent signs, all of them plain. */
  ghost predicate Encodes(quote: Quoting) {
    forall t :: PlainIri(quote(t))
  }

  ghost predicate IrisLegal(s: Subject, u: Unit, quote: Quoting) {
    && LegalIri(UnitIri(s, u, quote)) && LegalIri(SubjectIri(s))
    && (Set(u.disposition) ==> LegalIri("urn:chatman:disposition:" + u.disposition.value))
    && forall t :: t in u.targets ==> LegalIri("urn:chatman:capability:" + quote(t))
  }

  /** The names that go into IRIs as they are. */
  ghost predicate LegalNames(s: Subject, u: Unit) {
    && LegalIri(s.supplier) && LegalIri(s.sha) && LegalIri(u.kind)
    && (Set(u.disposition) ==> LegalIri(u.disposition.value))
  }

  /** Plain characters before a name change nothing. */
  lemma {:induction false} Prefixed(prefix: string, v: string)
    requires PlainIri(prefix)
    ensures LegalIri(prefix + v) <==> LegalIri(v)
  {
    if prefix == "" {
      assert prefix + v == v;
    } else {
      assert (prefix + v)[1..] == prefix[1..] + v;
      Prefixed(prefix[1..], v);
    }
  }

  lemma SubjectLegal(s: Subject)
    ensures LegalIri(SubjectIri(s)) <==> LegalIri(s.supplier) && LegalIri(s.sha)
  {
    LegalJoined("urn:chatman:external-subject:" + s.supplier, s.sha);
    Prefixed("urn:chatman:external-subject:", s.supplier);
  }

  lemma FourJoined(a: string, b: string, c: string, d: string)
    ensures LegalIri(a + ":" + b + ":" + c + ":" + d) <==> LegalIri(a) && LegalIri(b) && LegalIri(c) && LegalIri(d)
  {
    LegalJoined(a, b);
    LegalJoined(a + ":" + b, c);
    LegalJoined(a + ":" + b + ":" + c, d);
  }

  lemma UnitLegal(s: Subject, u: Unit, quote: Quoting)
    requires LegalIri(quote(u.name))
    ensures LegalIri(UnitIri(s, u, quote)) <==> LegalIri(s.supplier) && LegalIri(s.sha) && LegalIri(u.kind)
  {
    var first := "urn:chatman:external:" + s.supplier;
    Prefixed("urn:chatman:external:", s.supplier);
    FourJoined(first, s.sha, u.kind, quote(u.name));
  }

  lemma DispositionLegal(v: string)
    ensures LegalIri("urn:chatman:disposition:" + v) <==> LegalIri(v)
  {
    Prefixed("urn:chatman:disposition:", v);
  }

  lemma CapabilityLegal(v: string)
    ensures LegalIri("urn:chatman:capability:" + v) <==> LegalIri(v)
  {
    Prefixed("urn:chatman:capability:", v);
  }

  /** Every IRI of a unit is legal if and only if the supplier, the commit, the kind and the
      disposition are: these are written as they are, only names and targets are encoded. */
  lemma IrisLegalExactly(s: Subject, u: Unit, quote: Quoting)
    requires Encodes(quote)
    ensures IrisLegal(s, u, quote) <==> LegalNames(s, u)
  {
    PlainIsLegal(quote(u.name));
    UnitLegal(s, u, quote);
    SubjectLegal(s);
    if Set(u.disposition) { DispositionLegal(u.disposition.value); }
    forall t | t in u.targets ensures LegalIri("urn:chatman:capability:" + quote(t)) {
      PlainIsLegal(quote(t));
      CapabilityLegal(quote(t));
    }
  }

  /** A unit with legal names is read back, IRIs and literals. */
  lemma LegalUnitReadsBack(s: Subject, u: Unit, quote: Quoting)
    requires Encodes(quote) && LegalNames(s, u)
    ensures Reads(JoinLines(UnitLines(s, u, quote)), CoreValues(s, u) + PatternValues(u))
    ensures forall rest :: ReadIri(Iri(UnitIri(s, u, quote)) + rest) == |Iri(UnitIri(s, u, quote))|
  {
    IrisLegalExactly(s, u, quote);
    LegalHasNoQuote(UnitIri(s, u, quote));
    LegalHasNoQuote(SubjectIri(s));
    if Set(u.disposition) { LegalHasNoQuote(u.disposition.value); }
    forall t | t in u.targets ensures QuoteFree(quote(t)) {
      PlainIsLegal(quote(t));
      LegalHasNoQuote(quote(t));
    }
    UnitReadsBack(s, u, quote);
    forall rest ensures ReadIri(Iri(UnitIri(s, u, quote)) + rest) == |Iri(UnitIri(s, u, quote))| {
      IriIsOneToken(UnitIri(s, u, quote), rest);
    }
  }

  /** A concrete input: a kind with a quote in it is projected, and its IRI is not one. */
  lemma QuotedKindIllegal(s: Subject, u: Unit, quote: Quoting, rest: string)
    requires Encodes(quote) && u.kind == "a\"b"
    ensures ReadIri(Iri(UnitIri(s, u, quote)) + rest) != |Iri(UnitIri(s, u, quote))|
  {
    PlainIsLegal(quote(u.name));
    UnitLegal(s, u, quote);
    assert u.kind[1] == '"';
    if LegalIri(u.kind) { LegalHasNoQuote(u.kind); }
    IriIsOneToken(UnitIri(s, u, quote), rest);
  }
}
