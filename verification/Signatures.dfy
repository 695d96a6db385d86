/**
 * D-Bus signatures and the iterator of tools/libtpcodegen.py that cuts one into single complete types.
 *
 * The iterator keeps one bracket kind (the first one it meets) and one depth; all the other brackets
 * it passes over. What is proved is that this is enough: on the text of any list of
 * types, however nested, the pieces are exactly the texts of those types (D-Bus Specification,
 * section "Type System"), and on any text at all the pieces are non-empty and join up to the input.
 */
module Signatures {
  import opened Wrappers

  // ----- Types and their text -----

  /** A single complete type, or a dict entry. Dict keys and empty structs are not restricted here: the
      iterator treats them all alike. */
  datatype Type =
    | Basic(code: char)
    | Array(elem: Type)
    | DictEntry(key: Type, value: Type)
    | Struct(fields: seq<Type>)

  predicate IsStructural(c: char) {
    c == 'a' || IsOpen(c) || IsClose(c)
  }

  ghost predicate WellFormed(t: Type) {
    match t
    case Basic(code) => !IsStructural(code)
    case Array(elem) => WellFormed(elem)
    case DictEntry(key, value) => WellFormed(key) && WellFormed(value)
    case Struct(fields) => forall f | f in fields :: WellFormed(f)
  }

  function Render(t: Type): string
    decreases t, 1
  {
    match t
    case Basic(code) => [code]
    case Array(elem) => "a" + Render(elem)
    case DictEntry(key, value) => "{" + Render(key) + Render(value) + "}"
    case Struct(fields) => "(" + RenderAll(fields) + ")"
  }

  function RenderAll(ts: seq<Type>): string
    decreases ts, 0
  {
    if ts == [] then "" else Render(ts[0]) + RenderAll(ts[1..])
  }

  function Join(pieces: seq<string>): string {
    if pieces == [] then "" else pieces[0] + Join(pieces[1..])
  }

  // ----- The scan, as a function of the text still to be read -----

  datatype Kind = NoBracket | Brace | Paren

  /** What the scan remembers: the kind of bracket it counts, and how many of them are open. */
  datatype Counter = Counter(kind: Kind, depth: nat) {
    /** The depth is positive from the moment a kind has been chosen. */
    ghost predicate Consistent() {
      kind.NoBracket? <==> depth == 0
    }
  }

  const Fresh := Counter(NoBracket, 0)

  predicate IsOpen(c: char) {
    c == '{' || c == '('
  }

  predicate IsClose(c: char) {
    c == '}' || c == ')'
  }

  function KindOf(c: char): Kind {
    if c == '{' || c == '}' then Brace else if c == '(' || c == ')' then Paren else NoBracket
  }

  ghost function Count(k: Counter, c: char): Counter
    requires k.Consistent()
  {
    if IsOpen(c) then
      if k.kind.NoBracket? then Counter(KindOf(c), 1)
      else if k.kind == KindOf(c) then k.(depth := k.depth + 1)
      else k
    else if IsClose(c) && k.kind == KindOf(c) then k.(depth := k.depth - 1)
    else k
  }

  ghost predicate Stops(k: Counter, c: char)
    requires k.Consistent()
  {
    c != 'a' && !IsOpen(c) && Count(k, c).depth == 0
  }

  /** How many characters the scan reads from `s` before it stops. */
  ghost function Scan(s: string, k: Counter): (n: nat)
    requires k.Consistent()
    ensures n <= |s|
    ensures s != "" ==> n > 0
  {
    if s == "" then 0
    else if Stops(k, s[0]) then 1
    else 1 + Scan(s[1..], Count(k, s[0]))
  }

  lemma ScanStep(s: string, i: nat, k: Counter)
    requires k.Consistent() && i < |s|
    ensures Scan(s[i..], k) == if Stops(k, s[i]) then 1 else 1 + Scan(s[i + 1..], Count(k, s[i]))
  {
    assert s[i..][1..] == s[i + 1..];
  }

  /** The pieces that iterating over a signature yields. */
  ghost function Pieces(s: string): seq<string> {
    if s == "" then []
    else
      var n := Scan(s, Fresh);
      [s[..n]] + Pieces(s[n..])
  }

  // ----- The iterator -----

  class SignatureIter {
    var remaining: string

    constructor (text: string)
      ensures remaining == text
    {
      remaining := text;
    }

    /** None stands for StopIteration. */
    method Next() returns (piece: Option<string>)
      modifies this
      ensures piece.None? <==> old(remaining) == ""
      ensures piece.None? ==> remaining == ""
      ensures piece.Some? ==>
                var n := Scan(old(remaining), Fresh);
                piece.value == old(remaining)[..n] && remaining == old(remaining)[n..]
    {
      if remaining == "" {
        return None;
      }
      var signature := remaining;
      var blockDepth := 0;
      var blockKind := NoBracket;
      var end := |signature|;
      var marker := 0;
      while marker < |signature|
        invariant 0 <= marker <= |signature| == end
        invariant blockDepth >= 0 && Counter(blockKind, blockDepth).Consistent()
        invariant Scan(signature, Fresh) == marker + Scan(signature[marker..], Counter(blockKind, blockDepth))
      {
        var c := signature[marker];
        ScanStep(signature, marker, Counter(blockKind, blockDepth));
        if c == 'a' {
        } else if c == '{' || c == '(' {
          if blockKind == NoBracket {
            blockKind := KindOf(c);
          }
          if blockKind == KindOf(c) {
            blockDepth := blockDepth + 1;
          }
        } else if c == '}' || c == ')' {
          if blockKind == KindOf(c) {
            blockDepth := blockDepth - 1;
          }
          if blockDepth == 0 {
            end := marker;
            break;
          }
        } else {
          if blockDepth == 0 {
            end := marker;
            break;
          }
        }
        marker := marker + 1;
      }
      // Python's slices stop at the end of the text.
      end := if end + 1 <= |signature| then end + 1 else |signature|;
      assert end == Scan(signature, Fresh);
      remaining := signature[end..];
      piece := Some(signature[..end]);
    }
  }

  /** A whole iteration, as a `for` loop over a Signature performs it. */
  method Iterate(text: string) returns (pieces: seq<string>)
    ensures pieces == Pieces(text)
  {
    pieces := [];
    var iter := new SignatureIter(text);
    while true
      invariant fresh(iter)
      invariant Pieces(text) == pieces + Pieces(iter.remaining)
      decreases |iter.remaining|
    {
      var piece := iter.Next();
      if piece.None? {
        break;
      }
      pieces := pieces + [piece.value];
    }
  }

  // ----- What the pieces are -----

  lemma ScanChar(c: char, rest: string, k: Counter)
    requires k.Consistent()
    ensures Scan([c] + rest, k) == if Stops(k, c) then 1 else 1 + Scan(rest, Count(k, c))
  {
    assert ([c] + rest)[1..] == rest;
  }

  /** An opening bracket and its closing one leave the counter as it was; from no depth at all, the closing one stops
      the scan. */
  lemma CountBrackets(open: char, close: char, k: Counter)
    requires IsOpen(open) && IsClose(close) && KindOf(open) == KindOf(close) && k.Consistent()
    ensures !Stops(k, open) && Count(k, open).Consistent()
    ensures Stops(Count(k, open), close) <==> k.depth == 0
    ensures k.depth > 0 ==> Count(Count(k, open), close) == k
  {
  }

  /** Brackets around n characters that the scan reads as a whole; inside is what follows the first of them. */
  lemma ScanBracketed(open: char, close: char, inside: string, n: nat, rest: string, k: Counter)
    requires IsOpen(open) && IsClose(close) && KindOf(open) == KindOf(close) && k.Consistent()
    requires Scan(inside, Count(k, open)) == n + Scan([close] + rest, Count(k, open))
    ensures Scan([open] + inside, k) == n + 2 + if k.depth > 0 then Scan(rest, k) else 0
  {
    CountBrackets(open, close, k);
    var inner := Count(k, open);
    assert Scan([open] + inside, k) == 1 + Scan(inside, inner) by {
      ScanChar(open, inside, k);
    }
    assert Scan([close] + rest, inner) == 1 + if k.depth > 0 then Scan(rest, k) else 0 by {
      ScanChar(close, rest, inner);
    }
  }

  lemma Regroup(a: string, b: string, c: string)
    ensures a + b + c == a + (b + c)
  {
  }

  lemma RegroupBracketed(open: string, body: string, close: string, rest: string)
    ensures open + body + close + rest == open + (body + (close + rest))
  {
  }

  /** Inside a bracket of the counted kind, the text of a type is read as a whole: only a bracket of the counted kind
      moves the depth, and it moves back where it is closed. */
  lemma {:induction false} TypePassedOver(t: Type, rest: string, k: Counter)
    requires WellFormed(t)
    requires k.Consistent() && k.depth > 0
    ensures Scan(Render(t) + rest, k) == |Render(t)| + Scan(rest, k)
    decreases t, 1
  {
    match t {
      case Basic(code) =>
        ScanChar(code, rest, k);
      case Array(elem) =>
        TypePassedOver(elem, rest, k);
        ScanChar('a', Render(elem) + rest, k);
        Regroup("a", Render(elem), rest);
      case DictEntry(key, value) =>
        EntryPassedOver(key, value, "}" + rest, Count(k, '{'));
        ScanBracketed('{', '}', Render(key) + Render(value) + ("}" + rest), |Render(key) + Render(value)|, rest, k);
        Regroup("{", Render(key), Render(value));
        RegroupBracketed("{", Render(key) + Render(value), "}", rest);
      case Struct(fields) =>
        TypesPassedOver(fields, ")" + rest, Count(k, '('));
        ScanBracketed('(', ')', RenderAll(fields) + (")" + rest), |RenderAll(fields)|, rest, k);
        RegroupBracketed("(", RenderAll(fields), ")", rest);
    }
  }

  lemma {:induction false} EntryPassedOver(key: Type, value: Type, rest: string, k: Counter)
    requires WellFormed(key) && WellFormed(value)
    requires k.Consistent() && k.depth > 0
    ensures Scan(Render(key) + Render(value) + rest, k) == |Render(key) + Render(value)| + Scan(rest, k)
    decreases DictEntry(key, value), 0
  {
    TypePassedOver(value, rest, k);
    TypePassedOver(key, Render(value) + rest, k);
    Regroup(Render(key), Render(value), rest);
  }

  lemma {:induction false} TypesPassedOver(ts: seq<Type>, rest: string, k: Counter)
    requires forall t | t in ts :: WellFormed(t)
    requires k.Consistent() && k.depth > 0
    ensures Scan(RenderAll(ts) + rest, k) == |RenderAll(ts)| + Scan(rest, k)
    decreases ts, 0
  {
    if ts == [] {
      assert RenderAll(ts) + rest == rest;
    } else {
      TypesPassedOver(ts[1..], rest, k);
      TypePassedOver(ts[0], RenderAll(ts[1..]) + rest, k);
      Regroup(Render(ts[0]), RenderAll(ts[1..]), rest);
    }
  }

  /** At the start of a piece, the scan stops exactly at the end of the first type. */
  lemma {:induction false} ScanStopsAfterType(t: Type, rest: string)
    requires WellFormed(t)
    ensures Scan(Render(t) + rest, Fresh) == |Render(t)|
  {
    match t {
      case Basic(code) =>
        ScanChar(code, rest, Fresh);
      case Array(elem) =>
        ScanStopsAfterType(elem, rest);
        ScanChar('a', Render(elem) + rest, Fresh);
        Regroup("a", Render(elem), rest);
      case DictEntry(key, value) =>
        EntryPassedOver(key, value, "}" + rest, Counter(Brace, 1));
        ScanBracketed('{', '}', Render(key) + Render(value) + ("}" + rest), |Render(key) + Render(value)|, rest, Fresh);
        Regroup("{", Render(key), Render(value));
        RegroupBracketed("{", Render(key) + Render(value), "}", rest);
      case Struct(fields) =>
        TypesPassedOver(fields, ")" + rest, Counter(Paren, 1));
        ScanBracketed('(', ')', RenderAll(fields) + (")" + rest), |RenderAll(fields)|, rest, Fresh);
        RegroupBracketed("(", RenderAll(fields), ")", rest);
    }
  }

  /** The texts of the types, one by one. */
  ghost function Texts(ts: seq<Type>): seq<string> {
    if ts == [] then [] else [Render(ts[0])] + Texts(ts[1..])
  }

  lemma {:induction false} TextsAre(ts: seq<Type>)
    ensures Texts(ts) == seq(|ts|, i requires 0 <= i < |ts| => Render(ts[i]))
  {
    if ts != [] {
      TextsAre(ts[1..]);
    }
  }

  /** A type at the start of a signature is cut off as the first piece. */
  lemma FirstPiece(t: Type, rest: string)
    requires WellFormed(t)
    ensures Pieces(Render(t) + rest) == [Render(t)] + Pieces(rest)
  {
    ScanStopsAfterType(t, rest);
    RenderNotEmpty(t);
    var s := Render(t) + rest;
    assert s[..|Render(t)|] == Render(t) && s[|Render(t)|..] == rest;
  }

  lemma RenderNotEmpty(t: Type)
    requires WellFormed(t)
    ensures Render(t) != ""
  {
  }

  lemma {:induction false} PiecesAreTexts(ts: seq<Type>)
    requires forall t | t in ts :: WellFormed(t)
    ensures Pieces(RenderAll(ts)) == Texts(ts)
  {
    if ts != [] {
      FirstPiece(ts[0], RenderAll(ts[1..]));
      PiecesAreTexts(ts[1..]);
    }
  }

  /** Tokenising is correct: iterating over the text of t1..tn yields exactly the texts of t1..tn. */
  lemma PiecesAreTypes(ts: seq<Type>)
    requires forall t | t in ts :: WellFormed(t)
    ensures Pieces(RenderAll(ts)) == seq(|ts|, i requires 0 <= i < |ts| => Render(ts[i]))
  {
    PiecesAreTexts(ts);
    TextsAre(ts);
  }

  lemma JoinFirst(piece: string, pieces: seq<string>)
    ensures Join([piece] + pieces) == piece + Join(pieces)
  {
    assert ([piece] + pieces)[1..] == pieces;
  }

  lemma {:induction false} PiecesJoin(s: string)
    ensures Join(Pieces(s)) == s
  {
    if s != "" {
      var n := Scan(s, Fresh);
      var piece, rest := s[..n], Pieces(s[n..]);
      PiecesJoin(s[n..]);
      assert Pieces(s) == [piece] + rest;
      JoinFirst(piece, rest);
      assert piece + s[n..] == s;
    }
  }

  lemma {:induction false} PiecesNotEmpty(s: string)
    ensures forall p | p in Pieces(s) :: p != ""
  {
    if s != "" {
      var n := Scan(s, Fresh);
      PiecesNotEmpty(s[n..]);
      assert Pieces(s) == [s[..n]] + Pieces(s[n..]) && s[..n] != "";
    }
  }

  /** Iterating loses nothing, whatever the text: the pieces join up to it, and none is empty. */
  lemma PiecesJoinUp(s: string)
    ensures Join(Pieces(s)) == s
    ensures forall p | p in Pieces(s) :: p != ""
  {
    PiecesJoin(s);
    PiecesNotEmpty(s);
  }

  // ----- Unique readability -----

  /** No two lists of types share a text. */
  lemma {:induction false} RenderAllInjective(ts: seq<Type>, us: seq<Type>)
    requires forall t | t in ts :: WellFormed(t)
    requires forall u | u in us :: WellFormed(u)
    requires RenderAll(ts) == RenderAll(us)
    ensures ts == us
    decreases ts, 0
  {
    PiecesAreTypes(ts);
    PiecesAreTypes(us);
    var pieces := Pieces(RenderAll(ts));
    assert |ts| == |pieces| == |us|;
    forall i | 0 <= i < |ts|
      ensures ts[i] == us[i]
    {
      assert pieces[i] == Render(ts[i]) == Render(us[i]);
      RenderInjective(ts[i], us[i]);
    }
  }

  lemma Unbracket(open: char, body: string, close: char)
    ensures var s := [open] + body + [close];
            |s| == |body| + 2 && s[1..|s| - 1] == body
  {
  }

  lemma EntryText(key: Type, value: Type)
    ensures var s := Render(DictEntry(key, value));
            |s| >= 2 && s[1..|s| - 1] == Render(key) + Render(value)
  {
    Regroup("{", Render(key), Render(value));
    Unbracket('{', Render(key) + Render(value), '}');
  }

  /** The text of a key tells where the value begins. */
  lemma EntrySplits(key: Type, value: Type, otherKey: Type, otherValue: Type)
    requires WellFormed(key) && WellFormed(otherKey)
    requires Render(key) + Render(value) == Render(otherKey) + Render(otherValue)
    ensures Render(key) == Render(otherKey) && Render(value) == Render(otherValue)
  {
    ScanStopsAfterType(key, Render(value));
    ScanStopsAfterType(otherKey, Render(otherValue));
    var s, n := Render(key) + Render(value), |Render(key)|;
    assert s[..n] == Render(key) && s[n..] == Render(value);
    assert s[..n] == Render(otherKey) && s[n..] == Render(otherValue);
  }

  /** No two types share a text. */
  lemma {:induction false} RenderInjective(t: Type, u: Type)
    requires WellFormed(t) && WellFormed(u)
    requires Render(t) == Render(u)
    ensures t == u
    decreases t, 1
  {
    assert Render(t)[0] == Render(u)[0];
    match t {
      case Basic(code) =>
      case Array(elem) =>
        assert Render(t)[1..] == Render(elem) && Render(u)[1..] == Render(u.elem);
        RenderInjective(elem, u.elem);
      case DictEntry(key, value) =>
        EntryText(key, value);
        EntryText(u.key, u.value);
        EntrySplits(key, value, u.key, u.value);
        RenderInjective(key, u.key);
        RenderInjective(value, u.value);
      case Struct(fields) =>
        var s := Render(t);
        assert s[1..|s| - 1] == RenderAll(fields) == RenderAll(u.fields);
        RenderAllInjective(fields, u.fields);
    }
  }
}
