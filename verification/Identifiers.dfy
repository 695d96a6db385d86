/**
 * escape_as_identifier of tools/libtpcodegen.py: a string becomes a D-Bus name component, reversibly.
 *
 * The documentation promises a reversible encoding. That holds for 8-bit strings and for no others, since a
 * wider character yields more than two hex digits: both directions are proved, with a collision as witness.
 */
module Identifiers {

  predicate IsLetter(c: char) {
    'a' <= c <= 'z' || 'A' <= c <= 'Z'
  }

  predicate IsDigit(c: char) {
    '0' <= c <= '9'
  }

  predicate IsAlnum(c: char) {
    IsLetter(c) || IsDigit(c)
  }

  predicate Is8Bit(s: string) {
    forall i | 0 <= i < |s| :: s[i] as int < 256
  }

  /** A non-empty run of letters, digits and underscores that does not start with a digit. */
  predicate IsIdentifier(s: string) {
    && s != ""
    && !IsDigit(s[0])
    && forall c | c in s :: IsAlnum(c) || c == '_'
  }

  // ----- Hexadecimal -----

  function HexDigit(n: nat): (c: char)
    requires n < 16
    ensures IsDigit(c) || 'a' <= c <= 'f'
  {
    if n < 10 then ('0' as int + n) as char else ('a' as int + n - 10) as char
  }

  function HexValue(c: char): nat
    requires IsDigit(c) || 'a' <= c <= 'f'
  {
    if IsDigit(c) then c as int - '0' as int else c as int - 'a' as int + 10
  }

  predicate IsHexDigit(c: char) {
    IsDigit(c) || 'a' <= c <= 'f'
  }

  function Hex(n: nat): (s: string)
    ensures s != "" && forall i | 0 <= i < |s| :: IsHexDigit(s[i])
    ensures n < 16 ==> |s| == 1
  {
    if n < 16 then [HexDigit(n)] else Hex(n / 16) + [HexDigit(n % 16)]
  }

  /** '_%02x' % ord(c) */
  function EscapeChar(c: char): (s: string)
    ensures |s| >= 3 && s[0] == '_' && forall i | 1 <= i < |s| :: IsHexDigit(s[i])
  {
    if c as int < 16 then "_0" + Hex(c as int) else "_" + Hex(c as int)
  }

  // ----- The encoding -----

  function EscapeRest(s: string): string {
    if s == "" then ""
    else (if IsAlnum(s[0]) then [s[0]] else EscapeChar(s[0])) + EscapeRest(s[1..])
  }

  function Escape(s: string): string {
    if s == "" then "_"
    else (if IsLetter(s[0]) then [s[0]] else EscapeChar(s[0])) + EscapeRest(s[1..])
  }

  /** str.strip: what is left when letters and digits are taken off both ends. */
  function StripLeft(s: string): string {
    if s != "" && IsAlnum(s[0]) then StripLeft(s[1..]) else s
  }

  function StripRight(s: string): string {
    if s != "" && IsAlnum(s[|s| - 1]) then StripRight(s[..|s| - 1]) else s
  }

  method EscapeAsIdentifier(identifier: string) returns (r: string)
    ensures r == Escape(identifier)
  {
    if identifier == "" {
      return "_";
    }
    if StripRight(StripLeft(identifier)) == "" && IsLetter(identifier[0]) {
      FastPathAgrees(identifier);
      return identifier;
    }
    r := if IsLetter(identifier[0]) then [identifier[0]] else EscapeChar(identifier[0]);
    var i := 1;
    while i < |identifier|
      invariant 1 <= i <= |identifier|
      invariant Escape(identifier) == r + EscapeRest(identifier[i..])
    {
      var c := identifier[i];
      var piece := if IsAlnum(c) then [c] else EscapeChar(c);
      EscapeStep(identifier, i, r, piece);
      r := r + piece;
      i := i + 1;
    }
  }

  lemma EscapeStep(s: string, i: nat, done: string, piece: string)
    requires i < |s| && piece == if IsAlnum(s[i]) then [s[i]] else EscapeChar(s[i])
    ensures done + EscapeRest(s[i..]) == done + piece + EscapeRest(s[i + 1..])
  {
    assert s[i..][1..] == s[i + 1..];
    assert done + (piece + EscapeRest(s[i + 1..])) == done + piece + EscapeRest(s[i + 1..]);
  }

  // ----- The fast path -----

  lemma {:induction false} StripLeavesNothing(s: string)
    requires StripRight(StripLeft(s)) == ""
    ensures forall c | c in s :: IsAlnum(c)
  {
    if s != "" {
      if IsAlnum(s[0]) {
        StripLeavesNothing(s[1..]);
      } else {
        StripRightLeavesNothing(s);
      }
    }
  }

  lemma {:induction false} StripRightLeavesNothing(s: string)
    requires StripRight(s) == ""
    ensures forall c | c in s :: IsAlnum(c)
  {
    if s != "" {
      StripRightLeavesNothing(s[..|s| - 1]);
      assert s == s[..|s| - 1] + [s[|s| - 1]];
    }
  }

  lemma {:induction false} AlnumIsUntouched(s: string)
    requires forall c | c in s :: IsAlnum(c)
    ensures EscapeRest(s) == s
  {
    if s != "" {
      AlnumIsUntouched(s[1..]);
    }
  }

  /** On the strings the fast path takes, it returns what the general loop would. */
  lemma {:induction false} FastPathAgrees(s: string)
    requires s != "" && StripRight(StripLeft(s)) == "" && IsLetter(s[0])
    ensures Escape(s) == s
  {
    StripLeavesNothing(s);
    AlnumIsUntouched(s[1..]);
  }

  // ----- The result is an identifier -----

  lemma {:induction false} EscapeRestAlphabet(s: string)
    ensures forall c | c in EscapeRest(s) :: IsAlnum(c) || c == '_'
  {
    if s != "" {
      EscapeRestAlphabet(s[1..]);
    }
  }

  lemma {:induction false} EscapeYieldsIdentifier(s: string)
    ensures IsIdentifier(Escape(s))
  {
    if s != "" {
      EscapeRestAlphabet(s[1..]);
    }
  }

  // ----- The encoding is reversible -----

  function UnescapeRest(t: string): string {
    if t == "" then ""
    else if t[0] == '_' && |t| >= 3 && IsHexDigit(t[1]) && IsHexDigit(t[2]) then
      [(16 * HexValue(t[1]) + HexValue(t[2])) as char] + UnescapeRest(t[3..])
    else [t[0]] + UnescapeRest(t[1..])
  }

  function Unescape(t: string): string {
    if t == "_" then "" else UnescapeRest(t)
  }

  lemma UnescapeOne(c: char, rest: string)
    requires c as int < 256
    ensures UnescapeRest(EscapeChar(c) + rest) == [c] + UnescapeRest(rest)
  {
    var n := c as int;
    var t := EscapeChar(c) + rest;
    assert Hex(n) == if n < 16 then [HexDigit(n)] else [HexDigit(n / 16), HexDigit(n % 16)];
    assert t[1] == HexDigit(n / 16) && t[2] == HexDigit(n % 16);
    assert t[3..] == rest;
  }

  lemma {:induction false} UnescapeEscapeRest(s: string)
    requires Is8Bit(s)
    ensures UnescapeRest(EscapeRest(s)) == s
  {
    if s != "" {
      UnescapeEscapeRest(s[1..]);
      if IsAlnum(s[0]) {
        assert EscapeRest(s)[1..] == EscapeRest(s[1..]);
      } else {
        UnescapeOne(s[0], EscapeRest(s[1..]));
      }
    }
  }

  lemma {:induction false} UnescapeIs8Bit(t: string)
    requires Is8Bit(t)
    ensures Is8Bit(UnescapeRest(t))
  {
    if t == "" {
    } else if t[0] == '_' && |t| >= 3 && IsHexDigit(t[1]) && IsHexDigit(t[2]) {
      UnescapeIs8Bit(t[3..]);
    } else {
      UnescapeIs8Bit(t[1..]);
    }
  }

  /** The encoding has a left inverse on exactly the 8-bit strings. */
  lemma {:induction false} RoundTrip(s: string)
    ensures Unescape(Escape(s)) == s <==> Is8Bit(s)
  {
    if Is8Bit(s) {
      if s != "" {
        UnescapeEscapeRest(s[1..]);
        if IsLetter(s[0]) {
          assert Escape(s)[1..] == EscapeRest(s[1..]);
        } else {
          UnescapeOne(s[0], EscapeRest(s[1..]));
        }
      }
    } else {
      EscapeYieldsIdentifier(s);
      var t := Escape(s);
      forall i | 0 <= i < |t|
        ensures t[i] as int < 256
      {
        assert t[i] in t;
      }
      UnescapeIs8Bit(t);
    }
  }

  /** So no two 8-bit strings become the same identifier. */
  lemma EscapeInjective(s: string, t: string)
    requires Is8Bit(s) && Is8Bit(t) && Escape(s) == Escape(t)
    ensures s == t
  {
    RoundTrip(s);
    RoundTrip(t);
  }

  /** Beyond 8 bits uniqueness is lost. */
  lemma WideCharactersCollide()
    ensures exists s: string, t: string :: s != t && Escape(s) == Escape(t)
  {
    var s, t := "\U{0101}", "\U{0010}1";
    assert Hex(0x101) == Hex(0x10) + "1";
    assert EscapeChar(s[0]) == "_101" && EscapeChar(t[0]) == "_10";
    assert s[1..] == "" && t[1..] == "1";
    assert EscapeRest("1") == "1";
    assert Escape(s) == "_101" && Escape(t) == "_101";
  }
}
