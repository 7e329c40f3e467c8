/** The text operations the control scripts use: strip, ASCII upper and lower case, substring. */
module Text {

  /** White space as Python's str.strip and str.isspace treat it. */
  predicate IsSpace(c: char) {
    var n := c as int;
    || 9 <= n <= 13 || 28 <= n <= 32 || n == 0x85 || n == 0xA0 || n == 0x1680
    || 0x2000 <= n <= 0x200A || n == 0x2028 || n == 0x2029 || n == 0x202F || n == 0x205F || n == 0x3000
  }

  predicate AllSpace(s: string) {
    forall i :: 0 <= i < |s| ==> IsSpace(s[i])
  }

  function Strip(s: string): (r: string)
    ensures r != "" ==> !IsSpace(r[0]) && !IsSpace(r[|r| - 1])
    ensures |r| <= |s|
  {
    if s == "" then s
    else if IsSpace(s[0]) then Strip(s[1..])
    else if IsSpace(s[|s| - 1]) then Strip(s[..|s| - 1])
    else s
  }

  predicate Blank(s: string) {
    Strip(s) == ""
  }

  lemma {:induction false} StripPrefix(w: string, s: string)
    requires AllSpace(w)
    ensures Strip(w + s) == Strip(s)
  {
    if w == "" {
      assert w + s == s;
    } else {
      assert (w + s)[1..] == w[1..] + s;
      StripPrefix(w[1..], s);
    }
  }

  lemma {:induction false} StripSuffix(s: string, w: string)
    requires AllSpace(w)
    ensures Strip(s + w) == Strip(s)
    decreases |s| + |w|
  {
    if w == "" {
      assert s + w == s;
    } else if s == "" {
      assert s + w == w + "";
      StripPrefix(w, "");
    } else if IsSpace(s[0]) {
      assert (s + w)[1..] == s[1..] + w;
      StripSuffix(s[1..], w);
    } else {
      assert (s + w)[..|s + w| - 1] == s + w[..|w| - 1];
      StripSuffix(s, w[..|w| - 1]);
    }
  }

  /** White space around a text never shows in its stripped form. */
  lemma Padding(w: string, s: string, v: string)
    requires AllSpace(w) && AllSpace(v)
    ensures Strip(w + s + v) == Strip(s)
  {
    assert w + s + v == w + (s + v);
    StripPrefix(w, s + v);
    StripSuffix(s, v);
  }

  lemma StripIdempotent(s: string)
    ensures Strip(Strip(s)) == Strip(s)
  {
  }

  lemma {:induction false} StripBounds(s: string) returns (i: nat, j: nat)
    ensures i <= j <= |s| && Strip(s) == s[i..j]
    ensures forall k :: 0 <= k < i || j <= k < |s| ==> IsSpace(s[k])
  {
    if s == "" {
      i, j := 0, 0;
    } else if IsSpace(s[0]) {
      i, j := StripBounds(s[1..]);
      assert s[1..][i..j] == s[i + 1..j + 1];
      forall k | 0 <= k < i + 1 || j + 1 <= k < |s| ensures IsSpace(s[k]) {
        if k > 0 { assert s[1..][k - 1] == s[k]; }
      }
      i, j := i + 1, j + 1;
    } else if IsSpace(s[|s| - 1]) {
      i, j := StripBounds(s[..|s| - 1]);
      assert s[..|s| - 1][i..j] == s[i..j];
      forall k | 0 <= k < i || j <= k < |s| ensures IsSpace(s[k]) {
        if k < |s| - 1 { assert s[..|s| - 1][k] == s[k]; }
      }
    } else {
      i, j := 0, |s|;
    }
  }

  /** What is stripped off is white space at the two ends. */
  lemma StripTrims(s: string) returns (w: string, v: string)
    ensures AllSpace(w) && AllSpace(v) && s == w + Strip(s) + v
  {
    var i, j := StripBounds(s);
    w, v := s[..i], s[j..];
    assert s == s[..i] + s[i..j] + s[j..];
  }

  /** A text is trimmed when there is something in it and no white space at its ends. */
  ghost predicate Trimmed(r: string) {
    r != "" && !IsSpace(r[0]) && !IsSpace(r[|r| - 1])
  }

  lemma TrimmedStrips(w: string, r: string, v: string)
    requires AllSpace(w) && AllSpace(v) && Trimmed(r)
    ensures Strip(w + r + v) == r
  {
    Padding(w, r, v);
  }

  lemma BlankExactly(s: string)
    ensures Blank(s) <==> AllSpace(s)
  {
    var w, v := StripTrims(s);
    if Blank(s) {
      assert s == w + v;
    }
    if AllSpace(s) {
      assert s == s + "";
      StripPrefix(s, "");
    }
  }

  function UpperChar(c: char): char {
    if 'a' <= c <= 'z' then (c as int - 32) as char else c
  }

  function LowerChar(c: char): char {
    if 'A' <= c <= 'Z' then (c as int + 32) as char else c
  }

  function Upper(s: string): string {
    seq(|s|, i requires 0 <= i < |s| => UpperChar(s[i]))
  }

  function Lower(s: string): string {
    seq(|s|, i requires 0 <= i < |s| => LowerChar(s[i]))
  }

  predicate OccursAt(s: string, i: int, token: string) {
    0 <= i <= |s| - |token| && s[i..i + |token|] == token
  }

  predicate Contains(s: string, token: string) {
    exists i :: 0 <= i <= |s| && OccursAt(s, i, token)
  }

  /** What repository and verifier names are made of. */
  predicate NameChar(c: char) {
    'A' <= c <= 'Z' || 'a' <= c <= 'z' || '0' <= c <= '9' || c in "_.-"
  }

  lemma CapitalExactly(c: char)
    ensures 'A' <= c <= 'Z' <==> c in "ABCDEFGHIJKLM" || c in "NOPQRSTUVWXYZ"
  {
    if 'A' <= c <= 'M' {
      assert "ABCDEFGHIJKLM"[c as int - 'A' as int] == c;
    } else if 'N' <= c <= 'Z' {
      assert "NOPQRSTUVWXYZ"[c as int - 'N' as int] == c;
    }
  }

  lemma SmallExactly(c: char)
    ensures 'a' <= c <= 'z' <==> c in "abcdefghijklm" || c in "nopqrstuvwxyz"
  {
    if 'a' <= c <= 'm' {
      assert "abcdefghijklm"[c as int - 'a' as int] == c;
    } else if 'n' <= c <= 'z' {
      assert "nopqrstuvwxyz"[c as int - 'n' as int] == c;
    }
  }

  lemma DigitExactly(c: char)
    ensures '0' <= c <= '9' <==> c in "0123456789"
  {
    if '0' <= c <= '9' { assert "0123456789"[c as int - '0' as int] == c; }
  }

  lemma NameCharExactly(c: char)
    ensures NameChar(c) <==>
              c in "ABCDEFGHIJKLM" || c in "NOPQRSTUVWXYZ" || c in "abcdefghijklm" || c in "nopqrstuvwxyz" ||
              c in "0123456789" || c in "_.-"
  {
    CapitalExactly(c);
    SmallExactly(c);
    DigitExactly(c);
  }

  /** The two are the same letter, or the same character. */
  ghost predicate SameButCase(c: char, d: char) {
    || c == d
    || ('A' <= c <= 'Z' && d as int == c as int + 32) || ('A' <= d <= 'Z' && c as int == d as int + 32)
  }

  ghost predicate SameAt(s: string, i: nat, token: string) {
    i + |token| <= |s| && forall k :: 0 <= k < |token| ==> SameButCase(s[i + k], token[k])
  }

  /** The token is found in the text, in whatever case. */
  ghost predicate ContainsInAnyCase(s: string, token: string) {
    exists i: nat :: SameAt(s, i, token)
  }

  lemma LowerContainsExactly(s: string, token: string)
    ensures Contains(Lower(s), Lower(token)) <==> ContainsInAnyCase(s, token)
  {
    forall i: nat ensures OccursAt(Lower(s), i, Lower(token)) <==> SameAt(s, i, token) {
      LowerOccursExactly(s, i, token);
    }
    if i: nat :| SameAt(s, i, token) { assert OccursAt(Lower(s), i, Lower(token)); }
  }

  lemma LowerOccursExactly(s: string, i: nat, token: string)
    ensures OccursAt(Lower(s), i, Lower(token)) <==> SameAt(s, i, token)
  {
    var t, l := Lower(s), Lower(token);
    if OccursAt(t, i, l) {
      forall k | 0 <= k < |token| ensures SameButCase(s[i + k], token[k]) {
        assert t[i..i + |l|][k] == t[i + k];
        assert l[k] == LowerChar(token[k]) && t[i + k] == LowerChar(s[i + k]);
      }
    }
    if SameAt(s, i, token) {
      forall k | 0 <= k < |l| ensures t[i..i + |l|][k] == l[k] { assert SameButCase(s[i + k], token[k]); }
      assert t[i..i + |l|] == l;
    }
  }

  /** A token of capitals is found in the upper-case text when it is found in whatever case. */
  lemma UpperContainsExactly(s: string, token: string)
    requires forall c :: c in token ==> 'A' <= c <= 'Z'
    ensures Contains(Upper(s), token) <==> ContainsInAnyCase(s, token)
  {
    forall i: nat ensures OccursAt(Upper(s), i, token) <==> SameAt(s, i, token) { UpperOccursExactly(s, i, token); }
    if i: nat :| SameAt(s, i, token) { assert OccursAt(Upper(s), i, token); }
  }

  lemma UpperOccursExactly(s: string, i: nat, token: string)
    requires forall c :: c in token ==> 'A' <= c <= 'Z'
    ensures OccursAt(Upper(s), i, token) <==> SameAt(s, i, token)
  {
    var t := Upper(s);
    if OccursAt(t, i, token) {
      forall k | 0 <= k < |token| ensures SameButCase(s[i + k], token[k]) {
        assert t[i..i + |token|][k] == t[i + k];
        assert token[k] in token && t[i + k] == UpperChar(s[i + k]);
      }
    }
    if SameAt(s, i, token) {
      forall k | 0 <= k < |token| ensures t[i..i + |token|][k] == token[k] {
        assert SameButCase(s[i + k], token[k]) && token[k] in token;
      }
      assert t[i..i + |token|] == token;
    }
  }

  /** A commit identifier: forty lower-case hexadecimal digits. */
  predicate IsSha40(s: string) {
    |s| == 40 && forall i :: 0 <= i < |s| ==> '0' <= s[i] <= '9' || 'a' <= s[i] <= 'f'
  }

  lemma Sha40Exactly(s: string)
    ensures IsSha40(s) <==> |s| == 40 && forall c :: c in s ==> c in "0123456789abcdef"
  {
    forall i | 0 <= i < |s| && s[i] in "0123456789abcdef" ensures '0' <= s[i] <= '9' || 'a' <= s[i] <= 'f' { }
    forall c | '0' <= c <= '9' || 'a' <= c <= 'f' ensures c in "0123456789abcdef" { HexDigitListed(c); }
    if IsSha40(s) {
      forall c | c in s ensures c in "0123456789abcdef" { }
    }
  }

  lemma HexDigitListed(c: char)
    requires '0' <= c <= '9' || 'a' <= c <= 'f'
    ensures c in "0123456789abcdef"
  {
    var digits := "0123456789abcdef";
    if c <= '9' {
      assert digits[c as int - '0' as int] == c;
    } else {
      assert digits[10 + (c as int - 'a' as int)] == c;
    }
  }
}
