/** Import of Cheat Engine tables: tokenizer, entity decoder, stack machine, entry conversion. */
module CeImport {
  import opened Wrappers
  import opened Bytes
  import opened Sequences
  import opened Texts
  import opened Numbers
  import opened Values

  datatype Tok = Start(name: string) | End(name: string) | Chars(text: string)

  // ----- Searching text -----

  /** First position of a character. */
  function Find(s: string, c: char): (r: Option<nat>)
    ensures r.Some? ==> r.value < |s| && s[r.value] == c && c !in s[..r.value]
    ensures r.None? ==> c !in s
  {
    if s == [] then None
    else if s[0] == c then Some(0)
    else
      var i :- Find(s[1..], c);
      assert s[..i + 1] == [s[0]] + s[1..][..i];
      Some(i + 1)
  }

  /** First position of a substring. */
  function FindText(s: string, t: string): (r: Option<nat>)
    ensures r.Some? ==> r.value + |t| <= |s| && s[r.value..r.value + |t|] == t
  {
    if |t| <= |s| && s[..|t|] == t then Some(0)
    else if s == [] then None
    else
      var i :- FindText(s[1..], t);
      Some(i + 1)
  }

  predicate IsNameEnd(c: char) { IsSpace(c) || c == '/' }

  function NameEnd(s: string): (n: nat)
    ensures n <= |s|
  {
    if s == [] || IsNameEnd(s[0]) then 0 else 1 + NameEnd(s[1..])
  }

  /** Tag name: up to the first space or slash, in lower case. */
  function TagName(s: string): string { ToLower(s[..NameEnd(s)]) }

  // ----- Entities -----

  /** `char::from_u32`: the Unicode scalar values. */
  function ScalarOf(n: u64): Option<char> {
    if n < 0xD800 || 0xE000 <= n <= 0x10FFFF then Some(n as char) else None
  }

  function FromRadix32(s: string, radix: nat): Option<u64>
    requires 2 <= radix <= 16
  {
    var n :- FromRadix(s, radix);
    if n < TWO32 then Some(n) else None
  }

  /** The character an entity stands for: the five predefined ones, or a numeric reference. */
  function Entity(ent: string): Option<char> {
    if ent == "lt" then Some('<') else if ent == "gt" then Some('>') else if ent == "amp" then Some('&')
    else if ent == "quot" then Some('"') else if ent == "apos" then Some('\'')
    else
      var hex := if |ent| >= 2 && ent[0] == '#' && (ent[1] == 'x' || ent[1] == 'X')
                 then FromRadix32(ent[2..], 16) else None;
      var code := if hex.Some? then hex else if ent != [] && ent[0] == '#' then FromRadix32(ent[1..], 10) else None;
      if code.None? then None else ScalarOf(code.value)
  }

  /** At an ampersand: the text it gives and how many characters it takes. An unknown entity stays as it
      is, and so does an ampersand without a semicolon. */
  function AtAmpersand(rest: string): (r: (string, nat))
    requires rest != [] && rest[0] == '&'
    ensures 0 < r.1 <= |rest|
  {
    match Find(rest, ';')
    case None => ("&", 1)
    case Some(semi) => (match Entity(rest[1..semi]) case Some(c) => [c] case None => rest[..semi + 1], semi + 1)
  }

  /** Replaces entities, from left to right. */
  function Unescape(s: string): string
    decreases |s|
  {
    match Find(s, '&')
    case None => s
    case Some(amp) =>
      var (text, n) := AtAmpersand(s[amp..]);
      s[..amp] + text + Unescape(s[amp..][n..])
  }

  method UnescapeText(s: string) returns (out: string)
    ensures out == Unescape(s)
  {
    hide Find, Entity;
    out := "";
    var rest := s;
    assert [] + Unescape(s) == Unescape(s);
    while true
      invariant out + Unescape(rest) == Unescape(s)
      decreases |rest|
    {
      var amp := Find(rest, '&');
      if amp.None? {
        break;
      }
      ghost var (text, n) := AtAmpersand(rest[amp.value..]);
      assert out + (rest[..amp.value] + text + Unescape(rest[amp.value..][n..]))
             == (out + rest[..amp.value] + text) + Unescape(rest[amp.value..][n..]);
      out := out + rest[..amp.value];
      rest := rest[amp.value..];
      var semi := Find(rest, ';');
      if semi.Some? {
        var c := Entity(rest[1..semi.value]);
        if c.Some? {
          out := out + [c.value];
        } else {
          out := out + rest[..semi.value + 1];
        }
        rest := rest[semi.value + 1..];
      } else {
        out := out + "&";
        rest := rest[1..];
      }
    }
    out := out + rest;
  }

  // ----- Tokens -----

  predicate StartsWith(s: string, t: string) { |t| <= |s| && s[..|t|] == t }

  /** Position of the next '<', or the end. */
  function TextEnd(s: string): nat { match Find(s, '<') case Some(i) => i case None => |s| }

  /** Tokens of one tag, given what stands between '<' and '>'; a self-closing tag opens and closes. */
  function TagTokens(inner: string): seq<Tok> {
    var t := Trim(inner);
    if t != [] && t[0] == '/' then [End(TagName(t[1..]))]
    else if t != [] && t[|t| - 1] == '/' then [Start(TagName(t)), End(TagName(t))]
    else [Start(TagName(t))]
  }

  /** Text between tags; blank text is dropped. */
  function TextTokens(raw: string): seq<Tok> {
    var text := Unescape(raw);
    if Trim(text) != [] then [Chars(text)] else []
  }

  /** Where a construct that starts with '<' ends, and its tokens; None when it is not closed. */
  function Markup(s: string): (r: Option<(nat, seq<Tok>)>)
    requires s != [] && s[0] == '<'
    ensures r.Some? ==> 0 < r.value.0 <= |s|
  {
    if StartsWith(s, "<!--") then
      var end :- FindText(s, "-->");
      Some((end + 3, []))
    else
      var end :- Find(s, '>');
      if |s| > 1 && (s[1] == '?' || s[1] == '!') then Some((end + 1, []))
      else Some((end + 1, TagTokens(s[1..end])))
  }

  function Tokens(s: string): seq<Tok>
    decreases |s|
  {
    if s == [] then []
    else if s[0] == '<' then
      match Markup(s)
      case None => []
      case Some((n, toks)) => toks + Tokens(s[n..])
    else
      var n := TextEnd(s);
      TextTokens(s[..n]) + Tokens(s[n..])
  }

  /** Walks the text once, pushing tokens; stops at an unclosed construct. */
  method Tokenize(xml: string) returns (toks: seq<Tok>)
    ensures toks == Tokens(xml)
  {
    hide TagTokens, Unescape, Markup, Trim, TextEnd;
    toks := [];
    var i := 0;
    assert xml[0..] == xml && [] + Tokens(xml) == Tokens(xml);
    while i < |xml|
      invariant 0 <= i <= |xml|
      invariant Tokens(xml) == toks + Tokens(xml[i..])
    {
      var s := xml[i..];
      if xml[i] == '<' {
        var m := Markup(s);
        if m.None? {
          assert toks + [] == toks;
          return;
        }
        assert toks + (m.value.1 + Tokens(s[m.value.0..])) == (toks + m.value.1) + Tokens(s[m.value.0..]);
        assert s[m.value.0..] == xml[i + m.value.0..];
        toks := toks + m.value.1;
        i := i + m.value.0;
      } else {
        var start := i;
        TextEndBounds(s);
        while i < |xml| && xml[i] != '<'
          invariant start <= i <= |xml|
          invariant i <= start + TextEnd(s)
          decreases |xml| - i
        {
          TextEndIsNext(s, i - start);
          i := i + 1;
        }
        TextEndIsNext(s, i - start);
        var text := UnescapeText(xml[start..i]);
        assert xml[start..i] == s[..TextEnd(s)] && s[TextEnd(s)..] == xml[i..];
        assert Tokens(s) == TextTokens(xml[start..i]) + Tokens(xml[i..]);
        assert toks + (TextTokens(xml[start..i]) + Tokens(xml[i..]))
               == (toks + TextTokens(xml[start..i])) + Tokens(xml[i..]);
        if Trim(text) != [] {
          toks := toks + [Chars(text)];
        } else {
          assert toks + [] == toks;
        }
      }
    }
    assert toks + [] == toks;
  }

  lemma TextEndBounds(s: string)
    ensures TextEnd(s) <= |s| && (s != [] && s[0] != '<' ==> TextEnd(s) > 0)
  {}

  lemma TextEndIsNext(s: string, k: nat)
    requires k <= TextEnd(s)
    ensures k < |s| && s[k] != '<' ==> k < TextEnd(s)
    ensures k == |s| || s[k] == '<' ==> k == TextEnd(s)
  {
    if k < TextEnd(s) {
      assert s[k] == s[..TextEnd(s)][k];
    }
  }

  // ----- Entries -----

  /** An imported entry; offsets in base-to-target order. */
  datatype CeEntry = CeEntry(desc: string, valueType: Option<ValueType>, mod: Option<string>, base: u64,
                             offsets: seq<u64>, strLen: u64)

  /** An entry whose tag is still open. */
  datatype Builder = Builder(desc: string, varType: string, address: string, offsets: seq<u64>, length: Option<u64>,
                             unicode: bool)

  const EMPTY_BUILDER := Builder("", "", "", [], None, false)

  function StripQuotes(s: string): string {
    var t := Trim(s);
    if t != [] && t[0] == '"' && |t| >= 2 && t[|t| - 1] == '"' then t[1..|t| - 1] else t
  }

  function ParseHex(s: string): Option<u64> {
    var t := Trim(s);
    FromRadix(if |t| >= 2 && t[0] == '0' && (t[1] == 'x' || t[1] == 'X') then t[2..] else t, 16)
  }

  function ParseDecimal(s: string): Option<u64> { FromRadix(Trim(s), 10) }

  function MapType(t: string, unicode: bool): Option<ValueType> {
    var low := ToLower(Trim(t));
    if low == "byte" then Some(I8) else if low == "2 bytes" then Some(I16) else if low == "4 bytes" then Some(I32)
    else if low == "8 bytes" then Some(I64) else if low == "float" then Some(F32) else if low == "double" then Some(F64)
    else if low == "string" then Some(if unicode then StringUtf16 else StringUtf8)
    else None
  }

  /** `module+offset`, an absolute address, or a bare module name. */
  function ParseAddress(address: string): Option<(Option<string>, u64)> {
    var a := Trim(address);
    if a == [] then None
    else match Find(a, '+')
      case Some(plus) =>
        var name := Trim(StripQuotes(a[..plus]));
        var off :- ParseHex(a[plus + 1..]);
        Some((if name == [] then None else Some(name), off))
      case None =>
        match ParseHex(a)
        case Some(v) => Some((None, v))
        case None =>
          var name := Trim(StripQuotes(a));
          if name == [] then None else Some((Some(name), 0))
  }

  /** Bytes to read for a text value: 16 characters unless stated, at least one, two bytes each in UTF-16. */
  function StringLength(length: Option<u64>, unicode: bool): u64 {
    var chars := length.GetOr(16);
    var counted := if chars == 0 then 1 else chars;
    if unicode then AsU64(counted * 2) else counted
  }

  /** None for folders, scripts and entries without a usable address. */
  function Finalize(b: Builder): Option<CeEntry> {
    var vt := MapType(b.varType, b.unicode);
    if vt.None? && b.offsets == [] then None
    else
      var (mod, base) :- ParseAddress(b.address);
      Some(CeEntry(b.desc, vt, mod, base, Reverse(b.offsets),
                   if vt.Some? && vt.value.IsString() then StringLength(b.length, b.unicode) else 0))
  }

  // ----- The stack machine -----

  /** Finished entries, open entries, the tag that owns the next text, and whether an offset list is open. */
  datatype State = State(out: seq<CeEntry>, stack: seq<Builder>, curTag: string, inOffsets: bool)

  const INITIAL := State([], [], "", false)

  function SetField(b: Builder, tag: string, text: string, inOffsets: bool): Builder {
    if tag == "description" then b.(desc := StripQuotes(text))
    else if tag == "variabletype" then b.(varType := Trim(text))
    else if tag == "address" then b.(address := Trim(text))
    else if tag == "length" then b.(length := ParseDecimal(text))
    else if tag == "unicode" then b.(unicode := Trim(text) == "1")
    else if tag == "offset" && inOffsets then
      match ParseHex(text)
      case Some(v) => b.(offsets := b.offsets + [v])
      case None => b
    else b
  }

  function Step(st: State, tok: Tok): State {
    match tok
    case Start(name) =>
      State(st.out, if name == "cheatentry" then st.stack + [EMPTY_BUILDER] else st.stack, name,
            st.inOffsets || name == "offsets")
    case End(name) =>
      if name == "cheatentry" && st.stack != [] then
        var entry := Finalize(st.stack[|st.stack| - 1]);
        State(st.out + (if entry.Some? then [entry.value] else []), st.stack[..|st.stack| - 1], "", st.inOffsets)
      else State(st.out, st.stack, "", st.inOffsets && name != "offsets")
    case Chars(text) =>
      if st.stack == [] then st
      else
        var top := |st.stack| - 1;
        st.(stack := st.stack[top := SetField(st.stack[top], st.curTag, text, st.inOffsets)])
  }

  function Run(toks: seq<Tok>, st: State): State {
    if toks == [] then st else Run(toks[1..], Step(st, toks[0]))
  }

  /** A table without any entry is an error. */
  function Parse(xml: string): Option<seq<CeEntry>> {
    if Start("cheatentry") in Tokens(xml) then Some(Run(Tokens(xml), INITIAL).out) else None
  }

  method ParseTable(xml: string) returns (r: Option<seq<CeEntry>>)
    ensures r == Parse(xml)
  {
    hide Tokens, Finalize, SetField;
    var toks := Tokenize(xml);
    if Start("cheatentry") !in toks {
      return None;
    }
    var out: seq<CeEntry> := [];
    var stack: seq<Builder> := [];
    var curTag := "";
    var inOffsets := false;
    for i := 0 to |toks|
      invariant Run(toks, INITIAL) == Run(toks[i..], State(out, stack, curTag, inOffsets))
    {
      assert toks[i..][0] == toks[i] && toks[i..][1..] == toks[i + 1..];
      ghost var before := State(out, stack, curTag, inOffsets);
      match toks[i] {
        case Start(name) =>
          curTag := name;
          if name == "cheatentry" {
            stack := stack + [EMPTY_BUILDER];
          } else if name == "offsets" {
            inOffsets := true;
          }
        case End(name) =>
          if name == "offsets" {
            inOffsets := false;
          } else if name == "cheatentry" && stack != [] {
            var entry := Finalize(stack[|stack| - 1]);
            stack := stack[..|stack| - 1];
            if entry.Some? {
              out := out + [entry.value];
            } else {
              assert out + [] == out;
            }
          }
          curTag := "";
        case Chars(text) =>
          if stack != [] {
            var top := |stack| - 1;
            stack := stack[top := SetField(stack[top], curTag, text, inOffsets)];
          }
      }
      assert State(out, stack, curTag, inOffsets) == Step(before, toks[i]);
    }
    return Some(out);
  }
}
