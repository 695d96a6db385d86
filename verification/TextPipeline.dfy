/**
 * Whole-string substitution passes: the three that prepare an outgoing message in haze_im_channel_send
 * (src/im-channel.c) and the five of xml_escape (tools/libtpcodegen.py).
 *
 * A pass sees the output of the passes before it, so nothing but a proof excludes that one rewrites what
 * another produced. Both chains are shown to equal one map over characters, whatever the text, and
 * that map to be a prefix code, so that the text can be recovered.
 *
 * GLib's g_markup_escape_text is taken to be the map over characters that its documentation describes.
 */
module TextPipeline {
  import opened Wrappers
  import opened Identifiers

  // ----- Substitution -----

  /** purple_strreplace and Python's str.replace: leftmost occurrences, without overlap. */
  function ReplaceAll(s: string, pattern: string, replacement: string): string
    requires pattern != ""
    decreases |s|
  {
    if |s| < |pattern| then s
    else if s[..|pattern|] == pattern then replacement + ReplaceAll(s[|pattern|..], pattern, replacement)
    else [s[0]] + ReplaceAll(s[1..], pattern, replacement)
  }

  function FlatMap(s: string, f: char -> string): string {
    if s == "" then "" else f(s[0]) + FlatMap(s[1..], f)
  }

  function Substitute(c: char, replacement: string): char -> string {
    d => if d == c then replacement else [d]
  }

  lemma {:induction false} ReplaceCharIsMap(s: string, c: char, replacement: string)
    ensures ReplaceAll(s, [c], replacement) == FlatMap(s, Substitute(c, replacement))
  {
    if s != "" {
      assert s[..1] == [s[0]];
      ReplaceCharIsMap(s[1..], c, replacement);
    }
  }

  lemma {:induction false} FlatMapConcat(s: string, t: string, f: char -> string)
    ensures FlatMap(s + t, f) == FlatMap(s, f) + FlatMap(t, f)
  {
    if s == "" {
      assert s + t == t;
    } else {
      assert (s + t)[1..] == s[1..] + t;
      FlatMapConcat(s[1..], t, f);
    }
  }

  /** Two maps in a row are the map `h` if they are so on each character. */
  lemma {:induction false} FlatMapCompose(s: string, f: char -> string, g: char -> string, h: char -> string)
    requires forall c :: FlatMap(f(c), g) == h(c)
    ensures FlatMap(FlatMap(s, f), g) == FlatMap(s, h)
  {
    if s != "" {
      FlatMapConcat(f(s[0]), FlatMap(s[1..], f), g);
      FlatMapCompose(s[1..], f, g, h);
    }
  }

  lemma {:induction false} FlatMapFixes(s: string, f: char -> string)
    requires forall i | 0 <= i < |s| :: f(s[i]) == [s[i]]
    ensures FlatMap(s, f) == s
  {
    if s != "" {
      FlatMapFixes(s[1..], f);
    }
  }

  // ----- Prefix codes -----

  ghost predicate IsPrefixCode(f: char -> string) {
    && (forall c :: f(c) != "")
    && (forall c, d :: f(c) <= f(d) ==> c == d)
  }

  lemma {:induction false} PrefixCodeInjective(s: string, t: string, f: char -> string)
    requires IsPrefixCode(f) && FlatMap(s, f) == FlatMap(t, f)
    ensures s == t
  {
    if s != "" && t != "" {
      var wire := FlatMap(s, f);
      var v, w := f(s[0]), f(t[0]);
      assert v == wire[..|v|] && w == wire[..|w|];
      assert v <= w || w <= v;
      assert FlatMap(s[1..], f) == wire[|v|..] && FlatMap(t[1..], f) == wire[|w|..];
      PrefixCodeInjective(s[1..], t[1..], f);
    }
  }

  // ----- Outgoing messages -----

  /** The control characters that g_markup_escape_text turns into character references. */
  predicate IsControl(c: char) {
    var n := c as int;
    || 0x1 <= n <= 0x8 || 0xb <= n <= 0xc || 0xe <= n <= 0x1f
    || 0x7f <= n <= 0x84 || 0x86 <= n <= 0x9f
  }

  function EscapeMarkup(c: char): (e: string)
    ensures e != "" && (|e| == 1 ==> e == [c])
    ensures c != '\n' ==> forall i | 0 <= i < |e| :: e[i] != '\n'
    ensures forall i | 1 <= i < |e| :: e[i] != '&'
  {
    match c
    case '&' => "&amp;"
    case '<' => "&lt;"
    case '>' => "&gt;"
    case '\'' => "&apos;"
    case '"' => "&quot;"
    case _ => if IsControl(c) then "&#x" + Hex(c as int) + ";" else [c]
  }

  /** What one character becomes when all three passes are done. */
  function Outgoing(c: char): string {
    if c == '\n' then "<br>" else if c == '\'' then "'" else EscapeMarkup(c)
  }

  function PrepareOutgoing(text: string): string {
    var escaped := FlatMap(text, EscapeMarkup);
    var lineBroken := ReplaceAll(escaped, "\n", "<br>");
    ReplaceAll(lineBroken, "&apos;", "'")
  }

  /** After two passes: like Outgoing, but for the apostrophe. */
  function LineBroken(c: char): string {
    if c == '\n' then "<br>" else EscapeMarkup(c)
  }

  lemma TwoPasses(text: string)
    ensures ReplaceAll(FlatMap(text, EscapeMarkup), "\n", "<br>") == FlatMap(text, LineBroken)
  {
    var br := Substitute('\n', "<br>");
    forall c: char
      ensures FlatMap(EscapeMarkup(c), br) == LineBroken(c)
    {
      var e := EscapeMarkup(c);
      if c == '\n' {
        assert e == "\n" && "<br>" + "" == "<br>";
      } else {
        FlatMapFixes(e, br);
      }
    }
    ReplaceCharIsMap(FlatMap(text, EscapeMarkup), '\n', "<br>");
    FlatMapCompose(text, EscapeMarkup, br, LineBroken);
  }

  lemma NoMatch(s: string, pattern: string, replacement: string, i: nat)
    requires s != "" && i < |pattern|
    requires i < |s| ==> s[i] != pattern[i]
    ensures ReplaceAll(s, pattern, replacement) == [s[0]] + ReplaceAll(s[1..], pattern, replacement)
  {
    if |s| < |pattern| {
      assert |s[1..]| < |pattern| && s == [s[0]] + s[1..];
    } else {
      assert s[..|pattern|][i] == s[i];
    }
  }

  /** A stretch without the pattern's first character is out of reach of a pass. */
  lemma {:induction false} PassSkips(w: string, rest: string, pattern: string, replacement: string)
    requires pattern != "" && forall i | 0 <= i < |w| :: w[i] != pattern[0]
    ensures ReplaceAll(w + rest, pattern, replacement) == w + ReplaceAll(rest, pattern, replacement)
  {
    if w == "" {
      assert w + rest == rest;
    } else {
      PassSkips(w[1..], rest, pattern, replacement);
      PassSkipsFirst(w, rest, pattern, replacement, 0);
    }
  }

  /** A pass leaves a character alone where the pattern does not occur, if it leaves alone what comes after it. */
  lemma PassSkipsFirst(w: string, rest: string, pattern: string, replacement: string, i: nat)
    requires i < |w| && i < |pattern| && w[i] != pattern[i]
    requires ReplaceAll(w[1..] + rest, pattern, replacement) == w[1..] + ReplaceAll(rest, pattern, replacement)
    ensures ReplaceAll(w + rest, pattern, replacement) == w + ReplaceAll(rest, pattern, replacement)
  {
    FirstAndRest(w, rest);
    FirstAndRest(w, ReplaceAll(rest, pattern, replacement));
    assert (w + rest)[i] == w[i];
    NoMatch(w + rest, pattern, replacement, i);
  }

  lemma FirstAndRest(w: string, rest: string)
    requires w != ""
    ensures (w + rest)[0] == w[0] && (w + rest)[1..] == w[1..] + rest
    ensures [w[0]] + (w[1..] + rest) == w + rest
  {
  }

  /** So is one that has it at its start only, and differs from the pattern soon after. */
  lemma PassSkipsEntity(w: string, rest: string, pattern: string, replacement: string, i: nat)
    requires i < |w| && i < |pattern| && w[i] != pattern[i]
    requires forall j | 1 <= j < |w| :: w[j] != pattern[0]
    ensures ReplaceAll(w + rest, pattern, replacement) == w + ReplaceAll(rest, pattern, replacement)
  {
    PassSkips(w[1..], rest, pattern, replacement);
    PassSkipsFirst(w, rest, pattern, replacement, i);
  }

  lemma MatchFirst(pattern: string, rest: string, replacement: string)
    requires pattern != ""
    ensures ReplaceAll(pattern + rest, pattern, replacement) == replacement + ReplaceAll(rest, pattern, replacement)
  {
    assert (pattern + rest)[..|pattern|] == pattern && (pattern + rest)[|pattern|..] == rest;
  }

  /** On the encoding of one character the third pass finds nothing but the apostrophe, whatever follows. */
  lemma ThirdPassOne(c: char, rest: string)
    ensures ReplaceAll(LineBroken(c) + rest, "&apos;", "'") == Outgoing(c) + ReplaceAll(rest, "&apos;", "'")
  {
    var w := LineBroken(c);
    if c == '\'' {
      MatchFirst("&apos;", rest, "'");
    } else if w[0] == '&' {
      PassSkipsEntity(w, rest, "&apos;", "'", if c == '&' then 2 else 1);
    } else {
      PassSkips(w, rest, "&apos;", "'");
    }
  }

  lemma {:induction false} ThirdPass(text: string)
    ensures ReplaceAll(FlatMap(text, LineBroken), "&apos;", "'") == FlatMap(text, Outgoing)
  {
    if text != "" {
      ThirdPassOne(text[0], FlatMap(text[1..], LineBroken));
      ThirdPass(text[1..]);
    }
  }

  /** The three passes do not interfere: together they are one map over characters. */
  lemma OutgoingIsMap(text: string)
    ensures PrepareOutgoing(text) == FlatMap(text, Outgoing)
  {
    TwoPasses(text);
    ThirdPass(text);
  }

  lemma OutgoingIsPrefixCode()
    ensures IsPrefixCode(Outgoing)
  {
    forall c: char, d: char | Outgoing(c) <= Outgoing(d)
      ensures c == d
    {
      var v, w := Outgoing(c), Outgoing(d);
      assert v[0] == w[0] && (|v| > 1 ==> v[1] == w[1]);
      if IsControl(c) && IsControl(d) {
        ReferencesDiffer(c, d);
      }
    }
  }

  lemma ReferencesDiffer(c: char, d: char)
    requires IsControl(c) && IsControl(d)
    requires EscapeMarkup(c) <= EscapeMarkup(d)
    ensures c == d
  {
    var m, n := c as int, d as int;
    var v, w := EscapeMarkup(c), EscapeMarkup(d);
    assert Hex(m) == if m < 16 then [HexDigit(m)] else [HexDigit(m / 16), HexDigit(m % 16)];
    assert Hex(n) == if n < 16 then [HexDigit(n)] else [HexDigit(n / 16), HexDigit(n % 16)];
    assert v[3] == w[3] && v[4] == w[4];
  }

  /** The text of a message can be recovered from what is sent. */
  lemma OutgoingDecodable(s: string, t: string)
    requires PrepareOutgoing(s) == PrepareOutgoing(t)
    ensures s == t
  {
    OutgoingIsMap(s);
    OutgoingIsMap(t);
    OutgoingIsPrefixCode();
    PrefixCodeInjective(s, t, Outgoing);
  }

  // ----- Reading markup -----

  /** What an entity reference or a line break at the start of a text stands for, and how long it is. The five entities
      are those of section 4.6 of the XML 1.0 recommendation; references to characters are hexadecimal. */
  function Reference(s: string): Option<(char, nat)> {
    if Starts(s, "&amp;") then Some(('&', 5))
    else if Starts(s, "&lt;") then Some(('<', 4))
    else if Starts(s, "&gt;") then Some(('>', 4))
    else if Starts(s, "&apos;") then Some(('\'', 6))
    else if Starts(s, "&quot;") then Some(('"', 6))
    else if Starts(s, "<br>") then Some(('\n', 4))
    else CharReference(s)
  }

  predicate Starts(s: string, prefix: string) {
    |prefix| <= |s| && forall i | 0 <= i < |prefix| :: s[i] == prefix[i]
  }

  /** References with one digit or two. */
  function CharReference(s: string): Option<(char, nat)> {
    if !Starts(s, "&#x") then None
    else if |s| > 4 && IsHexDigit(s[3]) && s[4] == ';' then Some((HexValue(s[3]) as char, 5))
    else if |s| > 5 && IsHexDigit(s[3]) && IsHexDigit(s[4]) && s[5] == ';' then
      Some(((16 * HexValue(s[3]) + HexValue(s[4])) as char, 6))
    else None
  }

  /** The text that a piece of markup shows to whoever reads it. */
  function Read(s: string): string
    decreases |s|
  {
    if s == "" then ""
    else
      match Reference(s)
      case Some((c, n)) => if 0 < n <= |s| then [c] + Read(s[n..]) else ""
      case None => [s[0]] + Read(s[1..])
  }

  /** A string that is read as one character, whatever follows. */
  ghost predicate ReadsAs(w: string, c: char, rest: string) {
    Read(w + rest) == [c] + Read(rest)
  }

  lemma EntityReads(w: string, c: char, rest: string)
    requires w != "" && Reference(w + rest) == Some((c, |w|))
    ensures ReadsAs(w, c, rest)
  {
    assert (w + rest)[|w|..] == rest;
  }

  lemma PlainReads(c: char, rest: string)
    requires c != '&' && c != '<'
    ensures ReadsAs([c], c, rest)
  {
    var s := [c] + rest;
    assert s[0] == c && s[1..] == rest;
    assert Reference(s) == None;
  }

  lemma ControlReads(c: char, rest: string)
    requires IsControl(c)
    ensures ReadsAs(EscapeMarkup(c), c, rest)
  {
    var n := c as int;
    var w := EscapeMarkup(c);
    var s := w + rest;
    assert Hex(n) == if n < 16 then [HexDigit(n)] else [HexDigit(n / 16), HexDigit(n % 16)];
    assert s[0] == '&' && s[1] == '#' && s[2] == 'x' && s[3] == w[3] && s[4] == w[4];
    assert |w| > 5 ==> s[5] == w[5];
    assert Reference(s) == CharReference(s) == Some((c, |w|));
    EntityReads(w, c, rest);
  }

  lemma AmpersandReads(rest: string)
    ensures ReadsAs("&amp;", '&', rest)
  {
    var s := "&amp;" + rest;
    assert s[0] == '&' && s[1] == 'a' && s[2] == 'm' && s[3] == 'p' && s[4] == ';';
    EntityReads("&amp;", '&', rest);
  }

  lemma AngleReads(rest: string)
    ensures ReadsAs("&lt;", '<', rest) && ReadsAs("&gt;", '>', rest)
  {
    var s, t := "&lt;" + rest, "&gt;" + rest;
    assert s[0] == '&' && s[1] == 'l' && s[2] == 't' && s[3] == ';';
    assert t[0] == '&' && t[1] == 'g' && t[2] == 't' && t[3] == ';';
    EntityReads("&lt;", '<', rest);
    EntityReads("&gt;", '>', rest);
  }

  lemma QuoteReads(rest: string)
    ensures ReadsAs("&apos;", '\'', rest) && ReadsAs("&quot;", '"', rest)
  {
    var s, t := "&apos;" + rest, "&quot;" + rest;
    assert s[0] == '&' && s[1] == 'a' && s[2] == 'p' && s[3] == 'o' && s[4] == 's' && s[5] == ';';
    assert t[0] == '&' && t[1] == 'q' && t[2] == 'u' && t[3] == 'o' && t[4] == 't' && t[5] == ';';
    EntityReads("&apos;", '\'', rest);
    EntityReads("&quot;", '"', rest);
  }

  lemma BreakReads(rest: string)
    ensures ReadsAs("<br>", '\n', rest)
  {
    var s := "<br>" + rest;
    assert s[0] == '<' && s[1] == 'b' && s[2] == 'r' && s[3] == '>';
    EntityReads("<br>", '\n', rest);
  }

  lemma OutgoingReads(c: char, rest: string)
    ensures ReadsAs(Outgoing(c), c, rest)
  {
    match c {
      case '\n' => BreakReads(rest);
      case '&' => AmpersandReads(rest);
      case '<' => AngleReads(rest);
      case '>' => AngleReads(rest);
      case '"' => QuoteReads(rest);
      case _ =>
        if IsControl(c) {
          ControlReads(c, rest);
        } else {
          PlainReads(c, rest);
        }
    }
  }

  lemma {:induction false} MapReads(text: string, f: char -> string)
    requires forall c, rest :: ReadsAs(f(c), c, rest)
    ensures Read(FlatMap(text, f)) == text
  {
    if text != "" {
      MapReads(text[1..], f);
      assert ReadsAs(f(text[0]), text[0], FlatMap(text[1..], f));
    }
  }

  /** Whoever reads an outgoing message as markup sees just the text that the user meant. */
  lemma OutgoingRoundTrip(text: string)
    ensures Read(PrepareOutgoing(text)) == text
  {
    OutgoingIsMap(text);
    forall c, rest
      ensures ReadsAs(Outgoing(c), c, rest)
    {
      OutgoingReads(c, rest);
    }
    MapReads(text, Outgoing);
  }

  // ----- Sending -----

  const NORMAL := 0
  const ACTION := 1
  const AUTO_REPLY := 3

  datatype Message = Message(parts: nat, messageType: nat, contentType: Option<string>, content: Option<string>)
  datatype SendError = NotPlainText | BodyMissing | UnsupportedType
  datatype Sent = Sent(wire: string, autoResponse: bool) | Failed(error: SendError)

  /** What the user meant to appear: actions carry a command prefix. */
  function Shown(m: Message): string
    requires m.content.Some?
  {
    if m.messageType == ACTION then "/me " + m.content.value else m.content.value
  }

  method Send(m: Message) returns (r: Sent)
    ensures r == Failed(NotPlainText) <==> m.parts != 2 || m.contentType != Some("text/plain")
    ensures r == Failed(BodyMissing) <==>
            m.parts == 2 && m.contentType == Some("text/plain") && m.content.None?
    ensures r.Sent? <==>
            && m.parts == 2 && m.contentType == Some("text/plain") && m.content.Some?
            && (m.messageType == NORMAL || m.messageType == ACTION || m.messageType == AUTO_REPLY)
    ensures r.Sent? ==> r.wire == FlatMap(Shown(m), Outgoing) && Read(r.wire) == Shown(m)
    ensures r.Sent? ==> r.autoResponse == (m.messageType == AUTO_REPLY)
  {
    if m.parts != 2 {
      return Failed(NotPlainText);
    }
    if m.contentType != Some("text/plain") {
      return Failed(NotPlainText);
    }
    if m.content.None? {
      return Failed(BodyMissing);
    }
    var text, autoResponse := m.content.value, false;
    if m.messageType == ACTION {
      text := "/me " + text;
    } else if m.messageType == AUTO_REPLY {
      autoResponse := true;
    } else if m.messageType != NORMAL {
      return Failed(UnsupportedType);
    }
    OutgoingIsMap(text);
    OutgoingRoundTrip(text);
    r := Sent(PrepareOutgoing(text), autoResponse);
  }

  // ----- xml_escape -----

  const XML_SPECIALS := "&'\"<>"

  function XmlChar(c: char): string {
    match c
    case '&' => "&amp;"
    case '\'' => "&apos;"
    case '"' => "&quot;"
    case '<' => "&lt;"
    case '>' => "&gt;"
    case _ => [c]
  }

  /** The first n passes, each rewriting one of the special characters. */
  function XmlPasses(s: string, n: nat): string
    requires n <= |XML_SPECIALS|
  {
    if n == 0 then s
    else
      var c := XML_SPECIALS[n - 1];
      ReplaceAll(XmlPasses(s, n - 1), [c], XmlChar(c))
  }

  function XmlEscape(s: string): string {
    XmlPasses(s, |XML_SPECIALS|)
  }

  /** The map that the first n passes add up to. */
  function XmlCharUpTo(n: int): char -> string {
    c => if Rank(c) < n then XmlChar(c) else [c]
  }

  /** Which pass rewrites a character; 5 if none does. */
  function Rank(c: char): int {
    match c
    case '&' => 0
    case '\'' => 1
    case '"' => 2
    case '<' => 3
    case '>' => 4
    case _ => 5
  }

  /** A pass leaves alone what the earlier ones produced: no entity contains its character. */
  lemma NextXmlPass(n: nat, c: char)
    requires n < |XML_SPECIALS|
    ensures var special := XML_SPECIALS[n];
            FlatMap(XmlCharUpTo(n)(c), Substitute(special, XmlChar(special))) == XmlCharUpTo(n + 1)(c)
  {
    var special := XML_SPECIALS[n];
    var g := Substitute(special, XmlChar(special));
    if c == special {
      assert FlatMap([c], g) == XmlChar(c) + FlatMap([c][1..], g);
    } else {
      FlatMapFixes(XmlCharUpTo(n)(c), g);
    }
  }

  lemma {:induction false} XmlPassesAreMap(s: string, n: nat)
    requires n <= |XML_SPECIALS|
    ensures XmlPasses(s, n) == FlatMap(s, XmlCharUpTo(n))
  {
    if n == 0 {
      FlatMapFixes(s, XmlCharUpTo(0));
    } else {
      XmlPassesAreMap(s, n - 1);
      var c := XML_SPECIALS[n - 1];
      forall d: char
        ensures FlatMap(XmlCharUpTo(n - 1)(d), Substitute(c, XmlChar(c))) == XmlCharUpTo(n)(d)
      {
        NextXmlPass(n - 1, d);
      }
      ReplaceCharIsMap(XmlPasses(s, n - 1), c, XmlChar(c));
      FlatMapCompose(s, XmlCharUpTo(n - 1), Substitute(c, XmlChar(c)), XmlCharUpTo(n));
    }
  }

  /** The five passes are one map over characters. */
  lemma XmlEscapeIsMap(s: string)
    ensures XmlEscape(s) == FlatMap(s, XmlChar)
  {
    XmlPassesAreMap(s, |XML_SPECIALS|);
    FlatMapSame(s, XmlCharUpTo(|XML_SPECIALS|), XmlChar);
  }

  lemma {:induction false} FlatMapSame(s: string, f: char -> string, g: char -> string)
    requires forall c :: f(c) == g(c)
    ensures FlatMap(s, f) == FlatMap(s, g)
  {
    if s != "" {
      FlatMapSame(s[1..], f, g);
    }
  }

  /** The escaped string determines the original. */
  lemma XmlEscapeInjective(s: string, t: string)
    requires XmlEscape(s) == XmlEscape(t)
    ensures s == t
  {
    XmlEscapeIsMap(s);
    XmlEscapeIsMap(t);
    assert IsPrefixCode(XmlChar) by {
      forall c: char, d: char | XmlChar(c) <= XmlChar(d)
        ensures c == d
      {
        var v, w := XmlChar(c), XmlChar(d);
        assert v[0] == w[0];
        if |v| > 1 {
          assert v[1] == w[1] && v[2] == w[2];
        }
      }
    }
    PrefixCodeInjective(s, t, XmlChar);
  }

  lemma XmlCharReads(c: char, rest: string)
    ensures ReadsAs(XmlChar(c), c, rest)
  {
    match c {
      case '&' => AmpersandReads(rest);
      case '<' => AngleReads(rest);
      case '>' => AngleReads(rest);
      case '\'' => QuoteReads(rest);
      case '"' => QuoteReads(rest);
      case _ => PlainReads(c, rest);
    }
  }

  /** Whoever reads the escaped string as markup sees the original. */
  lemma XmlRoundTrip(s: string)
    ensures Read(XmlEscape(s)) == s
  {
    XmlEscapeIsMap(s);
    forall c, rest
      ensures ReadsAs(XmlChar(c), c, rest)
    {
      XmlCharReads(c, rest);
    }
    MapReads(s, XmlChar);
  }

  /** And it holds no character that markup gives a meaning to, but for the ampersand of each entity. */
  lemma {:induction false} XmlEscapeIsPlain(s: string)
    ensures forall c | c in XmlEscape(s) :: c != '<' && c != '>' && c != '"' && c != '\''
  {
    XmlEscapeIsMap(s);
    if s != "" {
      XmlEscapeIsPlain(s[1..]);
      XmlEscapeIsMap(s[1..]);
      assert forall c | c in XmlChar(s[0]) :: c != '<' && c != '>' && c != '"' && c != '\'';
    }
  }
}
