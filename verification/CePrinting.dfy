/**
 A specification printer for tables: XML with the predefined entities (XML 1.0, section 4.6), one element
 per field and nested entries. Tags may carry attributes, and after every element or container tag there may
 be any white space, comments and declarations. Tokenizing its output gives back the pieces that were printed.
 */
module CePrinting {
  import opened Wrappers
  import opened Bytes
  import opened Texts
  import opened CeImport
  import opened CeMarkup

  // ----- Escaping -----

  function EscapeChar(c: char): (r: string)
    ensures r != [] && '<' !in r
  {
    if c == '<' then "&lt;" else if c == '>' then "&gt;" else if c == '&' then "&amp;"
    else if c == '"' then "&quot;" else if c == '\'' then "&apos;" else [c]
  }

  function Escape(s: string): (r: string)
    ensures '<' !in r && |r| >= |s|
  {
    if s == [] then [] else EscapeChar(s[0]) + Escape(s[1..])
  }

  /** One escaped character reads back, whatever follows. */
  lemma EscapedCharReads(c: char, rest: string)
    ensures Unescape(EscapeChar(c) + rest) == [c] + Unescape(rest)
  {
    PredefinedEntities();
    hide Unescape, Entity;
    if c == '<' {
      assert "&" + "lt" + ";" == EscapeChar(c);
      UnescapeEntity("lt", c, rest);
    } else if c == '>' {
      assert "&" + "gt" + ";" == EscapeChar(c);
      UnescapeEntity("gt", c, rest);
    } else if c == '&' {
      assert "&" + "amp" + ";" == EscapeChar(c);
      UnescapeEntity("amp", c, rest);
    } else if c == '"' {
      assert "&" + "quot" + ";" == EscapeChar(c);
      UnescapeEntity("quot", c, rest);
    } else if c == '\'' {
      assert "&" + "apos" + ";" == EscapeChar(c);
      UnescapeEntity("apos", c, rest);
    } else {
      UnescapePlain(c, rest);
    }
  }

  /** Decoding inverts escaping. */
  lemma {:induction false} UnescapeEscape(s: string)
    ensures Unescape(Escape(s)) == s
  {
    NothingToUnescape("");
    hide Unescape, EscapeChar;
    if s != [] {
      UnescapeEscape(s[1..]);
      EscapedCharReads(s[0], Escape(s[1..]));
      assert s == [s[0]] + s[1..];
    }
  }

  // ----- Pieces and their tokens -----

  /** An element with text, or the start or end of a container. */
  datatype Piece = Leaf(name: string, text: string) | Begin(name: string) | Finish(name: string)

  /** A printable piece: its name is a name and its text is not blank. */
  predicate IsPrintable(p: Piece) { IsName(p.name) && (p.Leaf? ==> Trim(p.text) != []) }

  ghost predicate AllPrintable(ps: seq<Piece>) { forall i :: 0 <= i < |ps| ==> IsPrintable(ps[i]) }

  /** How a piece is written: what stands in its first tag beside the name, and the gap after it. */
  datatype Style = Style(attributes: string, gap: Gap)

  predicate IsStyle(y: Style) { IsDecoration(y.attributes) && IsGap(y.gap) }

  /** A style for every piece, by its position. */
  ghost predicate AllStyles(at: nat -> Style) { forall i :: IsStyle(at(i)) }

  function Print(p: Piece, y: Style): string {
    match p
    case Leaf(name, text) =>
      ("<" + name + y.attributes + ">") + (Escape(text) + (("</" + name + ">") + GapText(y.gap)))
    case Begin(name) => ("<" + name + y.attributes + ">") + GapText(y.gap)
    case Finish(name) => ("</" + name + y.attributes + ">") + GapText(y.gap)
  }

  function PrintAll(ps: seq<Piece>, i: nat, at: nat -> Style): (s: string)
    ensures s == [] <==> ps == []
    ensures ps != [] ==> s[0] == '<'
  {
    if ps == [] then "" else Print(ps[0], at(i)) + PrintAll(ps[1..], i + 1, at)
  }

  function PieceTokens(p: Piece): seq<Tok> {
    match p
    case Leaf(name, text) => [Start(ToLower(name)), Chars(text), End(ToLower(name))]
    case Begin(name) => [Start(ToLower(name))]
    case Finish(name) => [End(ToLower(name))]
  }

  function AllTokens(ps: seq<Piece>): seq<Tok> {
    if ps == [] then [] else PieceTokens(ps[0]) + AllTokens(ps[1..])
  }

  /** Printed text comes back as one text token. */
  lemma LeafTextTokens(text: string, rest: string)
    requires Trim(text) != [] && rest != [] && rest[0] == '<'
    ensures Tokens(Escape(text) + rest) == [Chars(text)] + Tokens(rest)
  {
    hide Unescape, Trim;
    UnescapeEscape(text);
    if text == [] {
      TrimBlank(text);
    }
    TextRunTokens(Escape(text), rest);
  }

  lemma PieceIsTokenized(p: Piece, y: Style, rest: string)
    requires IsPrintable(p) && IsStyle(y) && (rest == [] || rest[0] == '<')
    ensures Tokens(Print(p, y) + rest) == PieceTokens(p) + Tokens(rest)
  {
    hide Tokens, Escape, ToLower, Trim, IsDecoration, IsName, IsGap, GapText;
    GapHasNoTokens(y.gap, rest);
    var after := GapText(y.gap) + rest;
    match p
    case Begin(name) =>
      assert Print(p, y) + rest == ("<" + name + y.attributes + ">") + after;
      StartTagTokens(name, y.attributes, after);
    case Finish(name) =>
      assert Print(p, y) + rest == ("</" + name + y.attributes + ">") + after;
      EndTagTokens(name, y.attributes, after);
    case Leaf(name, text) =>
      assert Print(p, y) + rest
             == ("<" + name + y.attributes + ">") + (Escape(text) + (("</" + name + ">") + after));
      LeafIsTokenized(name, y.attributes, text, after);
  }

  lemma LeafIsTokenized(name: string, attributes: string, text: string, after: string)
    requires IsName(name) && IsDecoration(attributes) && Trim(text) != []
    ensures Tokens(("<" + name + attributes + ">") + (Escape(text) + (("</" + name + ">") + after)))
            == [Start(ToLower(name)), Chars(text), End(ToLower(name))] + Tokens(after)
  {
    hide Tokens, Escape, ToLower, Trim, IsDecoration, IsName;
    var close := ("</" + name + ">") + after;
    assert close[0] == '<';
    StartTagTokens(name, attributes, Escape(text) + close);
    LeafTextTokens(text, close);
    NoDecoration();
    EndTagTokens(name, "", after);
    assert ("</" + name + "" + ">") + after == close;
    assert [Start(ToLower(name))] + ([Chars(text)] + ([End(ToLower(name))] + Tokens(after)))
           == [Start(ToLower(name)), Chars(text), End(ToLower(name))] + Tokens(after);
  }

  lemma NoDecoration()
    ensures IsDecoration("")
  {}

  /** Tokenizing what was printed gives the tokens of the pieces, in whatever style. */
  lemma {:induction false} PrintedIsTokenized(ps: seq<Piece>, i: nat, at: nat -> Style, rest: string)
    requires AllPrintable(ps) && AllStyles(at) && (rest == [] || rest[0] == '<')
    ensures Tokens(PrintAll(ps, i, at) + rest) == AllTokens(ps) + Tokens(rest)
  {
    hide Tokens, IsPrintable, IsStyle, PieceTokens, Print;
    if ps == [] {
      assert "" + rest == rest && [] + Tokens(rest) == Tokens(rest);
    } else {
      assert IsPrintable(ps[0]);
      PrintedIsTokenized(ps[1..], i + 1, at, rest);
      var tail := PrintAll(ps[1..], i + 1, at) + rest;
      assert PrintAll(ps, i, at) + rest == Print(ps[0], at(i)) + tail;
      PieceIsTokenized(ps[0], at(i), tail);
      assert PieceTokens(ps[0]) + (AllTokens(ps[1..]) + Tokens(rest))
             == (PieceTokens(ps[0]) + AllTokens(ps[1..])) + Tokens(rest);
    }
  }

  lemma {:induction false} AllTokensConcat(a: seq<Piece>, b: seq<Piece>)
    ensures AllTokens(a + b) == AllTokens(a) + AllTokens(b)
  {
    hide PieceTokens;
    if a == [] {
      assert [] + b == b;
    } else {
      assert (a + b)[0] == a[0] && (a + b)[1..] == a[1..] + b;
      AllTokensConcat(a[1..], b);
    }
  }
}
