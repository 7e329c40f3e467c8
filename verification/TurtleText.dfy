/** String literals of RDF 1.1 Turtle (sections 6.4 and 6.5 of the W3C recommendation): the
    escaping the projector uses, the token grammar, and how a reader takes the token back. */
module TurtleText {

  // ----- Escaping -----

  /** Python's str.replace for a single character. */
  function Replace(s: string, c: char, r: string): string {
    if s == "" then ""
    else (if s[0] == c then r else [s[0]]) + Replace(s[1..], c, r)
  }

  /** The projector's escaping: four replacements, one after the other. */
  function Escaped(s: string): string {
    Replace(Replace(Replace(Replace(s, '\\', "\\\\"), '"', "\\\""), '\n', "\\n"), '\r', "\\r")
  }

  function Literal(s: string): string {
    "\"" + Escaped(s) + "\""
  }

  /** The same in one pass: what each character becomes. */
  function EscapeChar(c: char): string {
    if c == '\\' then "\\\\"
    else if c == '"' then "\\\""
    else if c == '\n' then "\\n"
    else if c == '\r' then "\\r"
    else [c]
  }

  function EscapeAll(s: string): string {
    if s == "" then "" else EscapeChar(s[0]) + EscapeAll(s[1..])
  }

  lemma {:induction false} ReplaceAppend(a: string, b: string, c: char, r: string)
    ensures Replace(a + b, c, r) == Replace(a, c, r) + Replace(b, c, r)
  {
    if a == "" {
      assert a + b == b;
    } else {
      assert (a + b)[1..] == a[1..] + b;
      ReplaceAppend(a[1..], b, c, r);
    }
  }

  lemma {:induction false} ReplaceAbsent(s: string, c: char, r: string)
    requires c !in s
    ensures Replace(s, c, r) == s
  {
    if s == "" {
    } else {
      ReplaceAbsent(s[1..], c, r);
      assert s == [s[0]] + s[1..];
    }
  }

  lemma ReplaceOne(c: char, r: string)
    ensures Replace([c], c, r) == r
  {
    assert [c][1..] == "";
    assert Replace([c][1..], c, r) == "";
  }

  lemma EscapedAppend(a: string, b: string)
    ensures Escaped(a + b) == Escaped(a) + Escaped(b)
  {
    ReplaceAppend(a, b, '\\', "\\\\");
    var a1, b1 := Replace(a, '\\', "\\\\"), Replace(b, '\\', "\\\\");
    ReplaceAppend(a1, b1, '"', "\\\"");
    var a2, b2 := Replace(a1, '"', "\\\""), Replace(b1, '"', "\\\"");
    ReplaceAppend(a2, b2, '\n', "\\n");
    ReplaceAppend(Replace(a2, '\n', "\\n"), Replace(b2, '\n', "\\n"), '\r', "\\r");
  }

  /** No replacement disturbs what an earlier one wrote. */
  lemma EscapedChar(c: char)
    ensures Escaped([c]) == EscapeChar(c)
  {
    var q, n, r := "\\\"", "\\n", "\\r";
    if c == '\\' {
      ReplaceOne(c, "\\\\");
      ReplaceAbsent("\\\\", '"', q);
      ReplaceAbsent("\\\\", '\n', n);
      ReplaceAbsent("\\\\", '\r', r);
    } else {
      ReplaceAbsent([c], '\\', "\\\\");
      if c == '"' {
        ReplaceOne(c, q);
        ReplaceAbsent(q, '\n', n);
        ReplaceAbsent(q, '\r', r);
      } else {
        ReplaceAbsent([c], '"', q);
        if c == '\n' {
          ReplaceOne(c, n);
          ReplaceAbsent(n, '\r', r);
        } else {
          ReplaceAbsent([c], '\n', n);
          if c == '\r' { ReplaceOne(c, r); } else { ReplaceAbsent([c], '\r', r); }
        }
      }
    }
  }

  /** The four replacements in sequence are the one-pass map. */
  lemma {:induction false} EscapedIsOnePass(s: string)
    ensures Escaped(s) == EscapeAll(s)
  {
    if s == "" {
    } else {
      assert s == [s[0]] + s[1..];
      EscapedAppend([s[0]], s[1..]);
      EscapedChar(s[0]);
      EscapedIsOnePass(s[1..]);
    }
  }

  // ----- The token grammar -----

  predicate IsHex(c: char) {
    '0' <= c <= '9' || 'A' <= c <= 'F' || 'a' <= c <= 'f'
  }

  predicate AllHex(s: string) {
    forall i :: 0 <= i < |s| ==> IsHex(s[i])
  }

  /** The length of the escape a text starts with: of a character, or numeric; zero if there
      is none. */
  function EscapeLength(s: string): nat {
    if |s| >= 2 && s[1] in "tbnrf\"'\\" then 2
    else if |s| >= 6 && s[1] == 'u' && AllHex(s[2..6]) then 6
    else if |s| >= 10 && s[1] == 'U' && AllHex(s[2..10]) then 10
    else 0
  }

  /** The length of the first element of a quoted string: a plain character or an escape; zero
      if there is none. */
  function ElementLength(s: string): nat {
    if s == "" then 0
    else if s[0] == '\\' then EscapeLength(s)
    else if s[0] in "\"\n\r" then 0
    else 1
  }

  /** Where the longest run of elements ends. */
  function ScanElements(s: string): (n: nat)
    ensures n <= |s|
  {
    var k := ElementLength(s);
    if k == 0 then 0 else k + ScanElements(s[k..])
  }

  /** STRING_LITERAL_QUOTE at the start of a text: the length of the token, or zero if the text
      does not start with one. */
  function ScanLiteral(text: string): nat {
    if text == "" || text[0] != '"' then 0
    else
      var n := ScanElements(text[1..]);
      if n + 1 < |text| && text[n + 1] == '"' then n + 2 else 0
  }

  predicate ThreeQuotes(s: string) {
    |s| >= 3 && s[0] == '"' && s[1] == '"' && s[2] == '"'
  }

  /** How many quotes, at most two, stand before the next element of a long string. */
  function LooseQuotes(s: string): (n: nat)
    ensures n <= |s|
  {
    if s == "" || s[0] != '"' then 0
    else if |s| == 1 || s[1] != '"' then 1
    else 2
  }

  /** An element of a long string may also be a line end. */
  function LongElementLength(s: string): nat {
    if s == "" || s[0] == '"' then 0
    else if s[0] == '\\' then EscapeLength(s)
    else 1
  }

  /** What is left of a long string, up to and with its three closing quotes; zero if it is
      never closed. */
  function ScanLong(s: string): (n: nat)
    ensures n <= |s|
  {
    if ThreeQuotes(s) then 3
    else
      var q := LooseQuotes(s);
      var k := LongElementLength(s[q..]);
      if k == 0 then 0
      else
        var n := ScanLong(s[q + k..]);
        if n == 0 then 0 else q + k + n
  }

  /** STRING_LITERAL_LONG_QUOTE at the start of a text. */
  function ScanLongLiteral(text: string): nat {
    if !ThreeQuotes(text) then 0
    else
      var n := ScanLong(text[3..]);
      if n == 0 then 0 else n + 3
  }

  datatype Token = Quoted(length: nat) | LongQuoted(length: nat) | NoToken

  /** A reader chooses the longest match of the two rules. */
  function ReadToken(text: string): (token: Token)
    ensures token.NoToken? || 0 < token.length <= |text|
  {
    var short, long := ScanLiteral(text), ScanLongLiteral(text);
    if short == 0 && long == 0 then NoToken
    else if long > short then LongQuoted(long)
    else Quoted(short)
  }

  /** A reader that looks no further than three quotes to decide for the long rule. */
  function ReadEagerly(text: string): Token {
    if ThreeQuotes(text) then
      if ScanLongLiteral(text) == 0 then NoToken else LongQuoted(ScanLongLiteral(text))
    else if ScanLiteral(text) == 0 then NoToken
    else Quoted(ScanLiteral(text))
  }

  lemma {:induction false} ScanEscaped(s: string, rest: string)
    ensures ScanElements(EscapeAll(s) + "\"" + rest) == |EscapeAll(s)|
  {
    var text := EscapeAll(s) + "\"" + rest;
    if s == "" {
      assert text == "\"" + rest;
      assert text[0] == '"';
    } else {
      var e := EscapeChar(s[0]);
      var tail := EscapeAll(s[1..]) + "\"" + rest;
      assert text == e + tail;
      assert ElementLength(text) == |e|;
      assert text[|e|..] == tail;
      ScanEscaped(s[1..], rest);
    }
  }

  lemma ScanQuoted(e: string, tail: string)
    requires tail != "" && tail[0] == '"' && ScanElements(e + tail) == |e|
    ensures ScanLiteral(['"'] + (e + tail)) == |e| + 2
  {
    var text := ['"'] + (e + tail);
    assert text[1..] == e + tail;
    assert text[|e| + 1] == (e + tail)[|e|] == tail[0];
  }

  lemma LiteralSplits(s: string, rest: string)
    ensures Literal(s) + rest == ['"'] + (EscapeAll(s) + ("\"" + rest))
  {
    EscapedIsOnePass(s);
  }

  /** Whatever follows it, an emitted literal matches the rule in its full length. */
  lemma LiteralMatches(s: string, rest: string)
    ensures ScanLiteral(Literal(s) + rest) == |Literal(s)|
  {
    ScanEscaped(s, rest);
    var e, tail := EscapeAll(s), "\"" + rest;
    assert e + "\"" + rest == e + tail;
    ScanQuoted(e, tail);
    LiteralSplits(s, rest);
    EscapedIsOnePass(s);
  }

  lemma EscapedBeginsPlain(s: string)
    requires s != ""
    ensures Escaped(s) != "" && Escaped(s)[0] != '"'
  {
    EscapedIsOnePass(s);
  }

  /** A quote directly after the empty literal, and only that, makes three. */
  lemma ThreeOnlyAfterEmpty(s: string, rest: string)
    ensures ThreeQuotes(Literal(s) + rest) <==> s == "" && rest != "" && rest[0] == '"'
  {
    var text := Literal(s) + rest;
    if s == "" {
      assert Literal(s) == "\"\"";
      assert rest != "" ==> text[2] == rest[0];
    } else {
      EscapedBeginsPlain(s);
      assert text[1] == Escaped(s)[0];
    }
  }

  /** The text after a literal turns its quotes into the opening of a long string: it starts
      with a quote, and what comes then closes a long string. */
  predicate OpensLong(rest: string) {
    rest != "" && rest[0] == '"' && ScanLong(rest[1..]) > 0
  }

  /** An emitted literal is read as exactly one STRING_LITERAL_QUOTE token if and only if it is
      not empty or what follows does not open a long string. */
  lemma LiteralIsOneToken(s: string, rest: string)
    ensures ReadToken(Literal(s) + rest) == Quoted(|Literal(s)|) <==> s != "" || !OpensLong(rest)
  {
    var text := Literal(s) + rest;
    LiteralMatches(s, rest);
    ThreeOnlyAfterEmpty(s, rest);
    if ThreeQuotes(text) {
      assert Literal(s) == "\"\"";
      assert text[3..] == rest[1..];
    }
  }

  /** For a reader that decides at three quotes the guard is the first character alone. */
  lemma LiteralIsOneTokenEagerly(s: string, rest: string)
    ensures ReadEagerly(Literal(s) + rest) == Quoted(|Literal(s)|) <==> s != "" || rest == "" || rest[0] != '"'
  {
    LiteralMatches(s, rest);
    ThreeOnlyAfterEmpty(s, rest);
  }

  /** Either reader is safe with whatever does not begin with a quote. */
  lemma SeparatedLiteral(s: string, rest: string)
    requires rest == "" || rest[0] != '"'
    ensures ReadToken(Literal(s) + rest) == ReadEagerly(Literal(s) + rest) == Quoted(|Literal(s)|)
  {
    LiteralIsOneToken(s, rest);
    LiteralIsOneTokenEagerly(s, rest);
  }

  /** A concrete input: the empty literal directly before another text in quotes. */
  lemma EmptyLiteralSwallowed()
    ensures ReadToken(Literal("") + "\"a\"\"\"") == LongQuoted(7)
  {
    var rest := "\"a\"\"\"";
    ThreeOnlyAfterEmpty("", rest);
    LiteralMatches("", rest);
    var body := rest[1..];
    assert body == "a\"\"\"" && body[0] == 'a' && !ThreeQuotes(body);
    assert LongElementLength(body[0..]) == 1 && ThreeQuotes(body[1..]);
    assert ScanLong(body) == 4;
    assert Literal("") == "\"\"" && (Literal("") + rest)[3..] == body;
  }

  // ----- Reading back -----

  /** The character that a backslash and the given letter stand for. */
  function Meaning(c: char): char {
    match c
    case 't' => '\t'
    case 'b' => '\U{0008}'
    case 'n' => '\n'
    case 'r' => '\r'
    case 'f' => '\U{000C}'
    case _ => c
  }

  /** Reads character escapes back. Numeric escapes are never emitted, and this reader does not
      decode them. */
  function Unescaped(s: string): string {
    if s == "" then ""
    else if s[0] == '\\' && |s| >= 2 then
      [Meaning(s[1])] + Unescaped(s[2..])
    else [s[0]] + Unescaped(s[1..])
  }

  lemma UnescapePlain(c: char, tail: string)
    requires c != '\\'
    ensures Unescaped([c] + tail) == [c] + Unescaped(tail)
  {
    assert ([c] + tail)[1..] == tail;
  }

  lemma UnescapePair(c: char, tail: string)
    ensures Unescaped(['\\', c] + tail) == [Meaning(c)] + Unescaped(tail)
  {
    assert (['\\', c] + tail)[2..] == tail;
  }

  lemma UnescapeOne(c: char, tail: string)
    ensures Unescaped(EscapeChar(c) + tail) == [c] + Unescaped(tail)
  {
    var e := EscapeChar(c);
    if |e| == 1 {
      UnescapePlain(c, tail);
    } else {
      assert e == ['\\', e[1]] && Meaning(e[1]) == c;
      UnescapePair(e[1], tail);
    }
  }

  lemma {:induction false} UnescapeEscaped(s: string)
    ensures Unescaped(EscapeAll(s)) == s
  {
    if s == "" {
    } else {
      UnescapeOne(s[0], EscapeAll(s[1..]));
      UnescapeEscaped(s[1..]);
      assert s == [s[0]] + s[1..];
    }
  }

  /** The value a reader takes from a long token. */
  function LongValueOf(token: string): string {
    if |token| < 6 then "" else Unescaped(token[3..|token| - 3])
  }

  /** The value a reader takes from a quoted token. */
  function ValueOf(token: string): string {
    if |token| < 2 then "" else Unescaped(token[1..|token| - 1])
  }

  /** Writing and reading a literal gives the text back; so different texts are written
      differently. */
  lemma LiteralRoundTrip(s: string)
    ensures ValueOf(Literal(s)) == s
  {
    EscapedIsOnePass(s);
    UnescapeEscaped(s);
    assert Literal(s)[1..|Literal(s)| - 1] == EscapeAll(s);
  }

  lemma LiteralInjective(s: string, t: string)
    requires Literal(s) == Literal(t)
    ensures s == t
  {
    LiteralRoundTrip(s);
    LiteralRoundTrip(t);
  }

  // ----- Reading a line -----

  /** All string literals a reader finds in a text, token after token. */
  function ReadLiterals(text: string): seq<string> {
    if text == "" then []
    else match ReadToken(text)
      case Quoted(n) => [ValueOf(text[..n])] + ReadLiterals(text[n..])
      case LongQuoted(n) => [LongValueOf(text[..n])] + ReadLiterals(text[n..])
      case NoToken => ReadLiterals(text[1..])
  }

  predicate NoQuoteFirst(text: string) {
    text == "" || text[0] != '"'
  }

  /** Whatever comes next, as long as it does not begin with a quote, a reader finds exactly
      these values in the text and then goes on with what comes next. */
  ghost predicate Reads(text: string, values: seq<string>) {
    forall rest {:trigger ReadLiterals(text + rest)} :: NoQuoteFirst(rest) ==>
      ReadLiterals(text + rest) == values + ReadLiterals(rest)
  }

  lemma {:induction false} PlainSkipped(plain: string, rest: string)
    requires '"' !in plain
    ensures ReadLiterals(plain + rest) == ReadLiterals(rest)
  {
    if plain == "" {
      assert plain + rest == rest;
    } else {
      assert (plain + rest)[1..] == plain[1..] + rest;
      PlainSkipped(plain[1..], rest);
    }
  }

  lemma PlainReads(plain: string)
    requires '"' !in plain
    ensures Reads(plain, [])
  {
    forall rest ensures ReadLiterals(plain + rest) == [] + ReadLiterals(rest) { PlainSkipped(plain, rest); }
  }

  /** An emitted literal is read back, unless a quote comes directly after it. */
  lemma LiteralReads(value: string)
    ensures Reads(Literal(value), [value])
  {
    forall rest | NoQuoteFirst(rest)
      ensures ReadLiterals(Literal(value) + rest) == [value] + ReadLiterals(rest)
    {
      var text := Literal(value) + rest;
      SeparatedLiteral(value, rest);
      assert text[..|Literal(value)|] == Literal(value) && text[|Literal(value)|..] == rest;
      LiteralRoundTrip(value);
    }
  }

  lemma AppendAssociative<T>(a: seq<T>, b: seq<T>, c: seq<T>)
    ensures a + b + c == a + (b + c)
  {
  }

  lemma ReadsBefore(text: string, values: seq<string>, rest: string, after: string)
    requires Reads(text, values) && NoQuoteFirst(rest) && after == text + rest
    ensures ReadLiterals(after) == values + ReadLiterals(rest)
  {
  }

  lemma ReadsOnBefore(a: string, v: seq<string>, b: string, w: seq<string>, rest: string, found: seq<string>)
    requires Reads(a, v) && Reads(b, w) && NoQuoteFirst(b) && NoQuoteFirst(rest) && found == ReadLiterals(rest)
    ensures ReadLiterals(a + b + rest) == v + w + found
  {
    AppendAssociative(a, b, rest);
    AppendAssociative(v, w, found);
    ReadsBefore(b, w, rest, b + rest);
    ReadsBefore(a, v, b + rest, a + b + rest);
  }

  /** Texts may be put one after the other when the second does not begin with a quote. */
  lemma ReadsOn(a: string, v: seq<string>, b: string, w: seq<string>)
    requires Reads(a, v) && Reads(b, w) && NoQuoteFirst(b)
    ensures Reads(a + b, v + w)
  {
    forall rest | NoQuoteFirst(rest) ensures ReadLiterals(a + b + rest) == v + w + ReadLiterals(rest) {
      ReadsOnBefore(a, v, b, w, rest, ReadLiterals(rest));
    }
  }

  lemma PlainOn(a: string, v: seq<string>, plain: string)
    requires Reads(a, v) && '"' !in plain
    ensures Reads(a + plain, v)
  {
    PlainReads(plain);
    ReadsOn(a, v, plain, []);
    assert v + [] == v;
  }
}
