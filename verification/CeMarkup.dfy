/** How the tokenizer reads each construct of a table's text: tags, entities, declarations and comments. */
module CeMarkup {
  import opened Wrappers
  import opened Bytes
  import opened Texts
  import opened Numbers
  import opened CeImport

  // ----- Searching text -----

  lemma {:induction false} FindUnique(s: string, c: char, k: nat)
    requires k < |s| && s[k] == c && c !in s[..k]
    ensures Find(s, c) == Some(k)
  {
    if k > 0 {
      assert s[0] in s[..k];
      assert s[..k] == [s[0]] + s[1..][..k - 1];
      FindUnique(s[1..], c, k - 1);
    }
  }

  lemma FindFirst(a: string, c: char, b: string)
    requires c !in a
    ensures Find(a + [c] + b, c) == Some(|a|)
  {
    var s := a + [c] + b;
    assert s[..|a|] == a;
    FindUnique(s, c, |a|);
  }

  lemma FindShift(d: char, s: string, c: char)
    requires d != c
    ensures Find([d] + s, c) == match Find(s, c) case None => None case Some(i) => Some(i + 1)
  {
    assert ([d] + s)[1..] == s;
  }

  /** Two searches that part at a position give the first one that succeeds. */
  lemma {:induction false} TextFirst(a: string, t: string, b: string)
    requires t != [] && forall k :: 0 <= k < |a| ==> !StartsWith((a + t + b)[k..], t)
    ensures FindText(a + t + b, t) == Some(|a|)
  {
    var s := a + t + b;
    if a == [] {
      assert s[..|t|] == t;
    } else {
      assert s[0..] == s;
      assert s[1..] == a[1..] + t + b;
      forall k | 0 <= k < |a[1..]| ensures !StartsWith((a[1..] + t + b)[k..], t) {
        assert s[1..][k..] == s[k + 1..];
      }
      TextFirst(a[1..], t, b);
    }
  }

  /** The text occurs nowhere in s. */
  predicate Lacks(s: string, t: string) { forall k :: 0 <= k <= |s| ==> !StartsWith(s[k..], t) }

  // ----- Entities -----

  lemma UnescapePlain(c: char, s: string)
    requires c != '&'
    ensures Unescape([c] + s) == [c] + Unescape(s)
  {
    hide AtAmpersand, Find;
    var t := [c] + s;
    FindShift(c, s, '&');
    if Find(s, '&').Some? {
      var amp := Find(s, '&').value;
      assert t[amp + 1..] == s[amp..] && t[..amp + 1] == [c] + s[..amp];
      var (text, n) := AtAmpersand(s[amp..]);
      assert ([c] + s[..amp]) + text + Unescape(s[amp..][n..]) == [c] + (s[..amp] + text + Unescape(s[amp..][n..]));
    }
  }

  /** An entity is decoded where it stands. */
  lemma UnescapeEntity(name: string, c: char, s: string)
    requires ';' !in name && Entity(name) == Some(c)
    ensures Unescape("&" + name + ";" + s) == [c] + Unescape(s)
  {
    EntityIsFound(name, s);
    UnescapeFirst("&" + name + ";", [c], s);
  }

  lemma UnknownEntity(name: string, s: string)
    requires ';' !in name && Entity(name) == None
    ensures Unescape("&" + name + ";" + s) == "&" + name + ";" + Unescape(s)
  {
    EntityIsFound(name, s);
    UnescapeFirst("&" + name + ";", "&" + name + ";", s);
  }

  lemma EntityIsFound(name: string, s: string)
    requires ';' !in name
    ensures AtAmpersand("&" + name + ";" + s)
            == (match Entity(name) case Some(c) => [c] case None => "&" + name + ";", |name| + 2)
  {
    hide Entity, Find;
    var t := "&" + name + ";" + s;
    FindFirst("&" + name, ';', s);
    assert ("&" + name) + [';'] + s == t;
    assert t[1..|name| + 1] == name && t[..|name| + 2] == "&" + name + ";";
  }

  lemma UnescapeFirst(ent: string, text: string, s: string)
    requires ent != [] && ent[0] == '&' && AtAmpersand(ent + s) == (text, |ent|)
    ensures Unescape(ent + s) == text + Unescape(s)
  {
    hide AtAmpersand;
    var t := ent + s;
    assert Find(t, '&') == Some(0);
    assert t[0..] == t && t[|ent|..] == s && t[..0] + text == text;
  }

  lemma PredefinedEntities()
    ensures Entity("lt") == Some('<') && Entity("gt") == Some('>') && Entity("amp") == Some('&')
    ensures Entity("quot") == Some('"') && Entity("apos") == Some('\'')
  {}

  lemma NothingToUnescape(s: string)
    requires '&' !in s
    ensures Unescape(s) == s
  {}

  /** A numeric reference stands for the Unicode scalar value of its number, decimal or hexadecimal; any other
      number stays as it is written. */
  lemma NumericReferences(n: u64, mark: string, rest: string)
    requires mark in {"#", "#x", "#X"}
    ensures var ref := mark + Numeral(n, if mark == "#" then 10 else 16);
            Unescape("&" + ref + ";" + rest)
            == (if n < 0xD800 || 0xE000 <= n < 0x11_0000 then [n as char] else "&" + ref + ";") + Unescape(rest)
  {
    var ref := mark + Numeral(n, if mark == "#" then 10 else 16);
    NumericEntities(n, mark);
    hide Numeral, Entity, Unescape;
    assert forall i :: 0 <= i < |ref| ==> ref[i] == '#' || ref[i] == 'x' || ref[i] == 'X' || IsHexDigit(ref[i]);
    if n < 0xD800 || 0xE000 <= n < 0x11_0000 {
      UnescapeEntity(ref, n as char, rest);
    } else {
      UnknownEntity(ref, rest);
    }
  }

  lemma NumericEntities(n: u64, mark: string)
    requires mark in {"#", "#x", "#X"}
    ensures Entity(mark + Numeral(n, if mark == "#" then 10 else 16))
            == if n < 0xD800 || 0xE000 <= n < 0x11_0000 then Some(n as char) else None
  {
    var radix := if mark == "#" then 10 else 16;
    var d := Numeral(n, radix);
    NumeralReads(n, radix);
    assert IsHexDigit(d[0]);
    hide Numeral, FromRadix, Entity;
    var ref := mark + d;
    if mark == "#" {
      assert ref[1..] == d && ref[1] == d[0];
      DecimalEntity(ref);
    } else {
      assert ref[2..] == d && ref[1] == mark[1];
      HexEntity(ref, n);
    }
  }

  lemma NumeralReads(n: u64, radix: nat)
    requires 2 <= radix <= 16
    ensures FromRadix(Numeral(n, radix), radix) == Some(n)
  {
    DigitsOfNumeral(n, radix);
    assert IsHexDigit(Numeral(n, radix)[0]);
    hide Numeral, Digits;
  }

  lemma DecimalEntity(ent: string)
    requires |ent| >= 2 && ent[0] == '#' && ent[1] != 'x' && ent[1] != 'X'
    ensures Entity(ent) ==
            match FromRadix32(ent[1..], 10) case Some(n) => ScalarOf(n) case None => None
  {
    hide FromRadix32, ScalarOf;
    NotPredefined(ent);
  }

  lemma HexEntity(ent: string, n: u64)
    requires |ent| >= 2 && ent[0] == '#' && (ent[1] == 'x' || ent[1] == 'X') && FromRadix(ent[2..], 16) == Some(n)
    ensures Entity(ent) == if n < 0xD800 || 0xE000 <= n < 0x11_0000 then Some(n as char) else None
  {
    hide FromRadix;
    NotPredefined(ent);
    SignedRest(ent);
  }

  /** After a hexadecimal mark there is no decimal number. */
  lemma SignedRest(ent: string)
    requires |ent| >= 2 && (ent[1] == 'x' || ent[1] == 'X')
    ensures FromRadix32(ent[1..], 10) == None
  {
    assert ent[1..][0] == ent[1];
    assert DigitValue(ent[1]) == None;
  }

  lemma NotPredefined(ent: string)
    requires ent == [] || ent[0] == '#'
    ensures ent !in {"lt", "gt", "amp", "quot", "apos"}
  {
    assert "lt"[0] == 'l' && "gt"[0] == 'g' && "amp"[0] == 'a' && "quot"[0] == 'q' && "apos"[0] == 'a';
  }

  /** Names other than the five predefined ones stay as they are. */
  lemma OtherEntitiesAreKept(name: string, rest: string)
    requires ';' !in name && name !in {"lt", "gt", "amp", "quot", "apos"} && (name == [] || name[0] != '#')
    ensures Unescape("&" + name + ";" + rest) == "&" + name + ";" + Unescape(rest)
  {
    OtherName(name);
    UnknownEntity(name, rest);
  }

  /** An ampersand without a semicolon stays as it is. */
  lemma LoneAmpersandIsKept(rest: string)
    requires ';' !in rest
    ensures Unescape("&" + rest) == "&" + Unescape(rest)
  {
    var t := "&" + rest;
    assert Find(t, '&') == Some(0);
    assert t[0..] == t && t[1..] == rest && t[..0] + "&" + Unescape(rest) == "&" + Unescape(rest);
  }

  lemma OtherName(name: string)
    requires name !in {"lt", "gt", "amp", "quot", "apos"} && (name == [] || name[0] != '#')
    ensures Entity(name) == None
  {
    hide FromRadix32, ScalarOf;
  }

  // ----- Tags -----

  predicate IsNameChar(c: char) { 'a' <= c <= 'z' || 'A' <= c <= 'Z' || '0' <= c <= '9' }

  predicate IsName(s: string) { s != [] && forall i :: 0 <= i < |s| ==> IsNameChar(s[i]) }

  /** What may stand between a tag's name and its end: attributes. */
  predicate IsDecoration(d: string) {
    '>' !in d && (d != [] ==> IsSpace(d[0])) && (TrimEnd(d) != [] ==> TrimEnd(d)[|TrimEnd(d)| - 1] != '/')
  }

  lemma NameIsTrimmed(name: string)
    requires IsName(name)
    ensures Trim(name) == name && '>' !in name && name[0] != '/' && name[0] != '!' && name[0] != '?'
            && name[|name| - 1] != '/'
  {
    assert IsNameChar(name[0]) && IsNameChar(name[|name| - 1]);
    TrimOfTrimmed(name);
  }

  lemma {:induction false} NameHasNoEnd(name: string, after: string)
    requires forall i :: 0 <= i < |name| ==> IsNameChar(name[i])
    requires after != [] ==> IsNameEnd(after[0])
    ensures NameEnd(name + after) == |name|
  {
    if name == [] {
      assert name + after == after;
    } else {
      assert IsNameChar(name[0]);
      assert forall i :: 0 <= i < |name[1..]| ==> name[1..][i] == name[i + 1];
      assert (name + after)[1..] == name[1..] + after;
      NameHasNoEnd(name[1..], after);
    }
  }

  lemma NameOfTag(name: string, after: string)
    requires IsName(name) && (after != [] ==> IsNameEnd(after[0]))
    ensures TagName(name + after) == ToLower(name)
  {
    NameHasNoEnd(name, after);
    assert (name + after)[..|name|] == name;
  }

  lemma {:induction false} TrimEndAfter(s: string, d: string)
    requires s != [] && !IsSpace(s[|s| - 1])
    ensures TrimEnd(s + d) == s + TrimEnd(d)
    ensures TrimEnd(d) != [] ==> d != [] && TrimEnd(d)[0] == d[0]
  {
    if d == [] {
      assert s + d == s;
    } else {
      assert (s + d)[..|s + d| - 1] == s + d[..|d| - 1];
      TrimEndAfter(s, d[..|d| - 1]);
    }
  }

  lemma TrimDecorated(s: string, d: string)
    requires s != [] && IsTrimmed(s) && IsDecoration(d)
    ensures Trim(s + d) == s + TrimEnd(d)
    ensures TrimEnd(d) != [] ==> IsNameEnd(TrimEnd(d)[0]) && TrimEnd(d)[|TrimEnd(d)| - 1] != '/'
  {
    TrimEndAfter(s, d);
    assert (s + d)[0] == s[0];
  }

  lemma CommentHasBang(s: string)
    ensures StartsWith(s, "<!--") ==> |s| > 1 && s[1] == '!'
  {
    if StartsWith(s, "<!--") {
      assert s[1] == s[..4][1];
    }
  }

  /** A tag is what stands up to the first '>'. */
  lemma TagIsRead(inner: string, rest: string)
    requires '>' !in inner && inner != [] && inner[0] != '?' && inner[0] != '!'
    ensures Tokens("<" + inner + ">" + rest) == TagTokens(inner) + Tokens(rest)
  {
    hide TagTokens, TextTokens;
    var s := "<" + inner + ">" + rest;
    FindFirst("<" + inner, '>', rest);
    assert ("<" + inner) + ['>'] + rest == s;
    assert s[1] == inner[0];
    CommentHasBang(s);
    assert s[1..|inner| + 1] == inner && s[|inner| + 2..] == rest;
    assert Markup(s) == Some((|inner| + 2, TagTokens(inner)));
  }

  lemma StartTag(name: string, d: string)
    requires IsName(name) && IsDecoration(d)
    ensures TagTokens(name + d) == [Start(ToLower(name))]
  {
    NameIsTrimmed(name);
    assert IsNameChar(name[0]) && IsNameChar(name[|name| - 1]);
    TrimDecorated(name, d);
    NameOfTag(name, TrimEnd(d));
    hide TagName, ToLower, Trim, TrimEnd, IsSpace, IsDecoration, IsName;
    var t := Trim(name + d);
    assert t[0] == name[0];
    if TrimEnd(d) == [] {
      assert t == name;
    } else {
      assert t[|t| - 1] == TrimEnd(d)[|TrimEnd(d)| - 1];
    }
  }

  lemma EndTag(name: string, d: string)
    requires IsName(name) && IsDecoration(d)
    ensures TagTokens("/" + name + d) == [End(ToLower(name))]
  {
    NameIsTrimmed(name);
    var slashed := "/" + name;
    assert IsNameChar(name[|name| - 1]) && slashed[|slashed| - 1] == name[|name| - 1];
    TrimDecorated(slashed, d);
    NameOfTag(name, TrimEnd(d));
    hide TagName, ToLower, Trim, TrimEnd, IsSpace, IsDecoration, IsName;
    assert Trim(slashed + d)[1..] == name + TrimEnd(d);
  }

  /** A start tag opens its element, whatever its attributes and the case of its name. */
  lemma StartTagTokens(name: string, d: string, rest: string)
    requires IsName(name) && IsDecoration(d)
    ensures Tokens(("<" + name + d + ">") + rest) == [Start(ToLower(name))] + Tokens(rest)
  {
    NameIsTrimmed(name);
    StartTag(name, d);
    hide TagTokens, ToLower, Trim, TrimEnd, Tokens, IsSpace, IsName;
    assert (name + d)[0] == name[0];
    assert ("<" + name + d + ">") + rest == "<" + (name + d) + ">" + rest;
    TagIsRead(name + d, rest);
  }

  /** An end tag closes its element. */
  lemma EndTagTokens(name: string, d: string, rest: string)
    requires IsName(name) && IsDecoration(d)
    ensures Tokens(("</" + name + d + ">") + rest) == [End(ToLower(name))] + Tokens(rest)
  {
    NameIsTrimmed(name);
    EndTag(name, d);
    hide TagTokens, ToLower, Trim, TrimEnd, Tokens, IsSpace, IsName;
    assert ("</" + name + d + ">") + rest == "<" + ("/" + name + d) + ">" + rest;
    TagIsRead("/" + name + d, rest);
  }

  /** A tag that ends in a slash opens its element and closes it. */
  lemma SelfClosingTagTokens(name: string, d: string, rest: string)
    requires IsName(name) && '>' !in d && (d != [] ==> IsSpace(d[0]))
    ensures Tokens(("<" + name + d + "/>") + rest) == [Start(ToLower(name)), End(ToLower(name))] + Tokens(rest)
  {
    NameIsTrimmed(name);
    var inner := name + d + "/";
    assert IsNameChar(name[0]) && inner[0] == name[0];
    TrimOfTrimmed(inner);
    assert inner == name + (d + "/");
    NameOfTag(name, d + "/");
    hide TagName, ToLower, Trim, Tokens, IsSpace;
    assert ("<" + name + d + "/>") + rest == "<" + inner + ">" + rest;
    TagIsRead(inner, rest);
  }

  // ----- What is skipped -----

  /** Declarations, processing instructions and document types are skipped up to the first '>'. */
  lemma DeclarationIsSkipped(mark: char, s: string, rest: string)
    requires mark in {'?', '!'} && '>' !in s && !(mark == '!' && StartsWith(s, "--"))
    ensures Tokens("<" + [mark] + s + ">" + rest) == Tokens(rest)
  {
    hide TagTokens, TextTokens;
    var t := "<" + [mark] + s + ">" + rest;
    FindFirst("<" + [mark] + s, '>', rest);
    assert ("<" + [mark] + s) + ['>'] + rest == t;
    if |s| >= 2 {
      assert t[..4] == "<" + [mark] + s[..2];
      assert s[..2] == t[..4][2..];
    } else if |s| == 1 {
      assert t[3] == '>';
    } else {
      assert t[2] == '>';
    }
    assert t[|s| + 3..] == rest && t[1] == mark;
    assert !StartsWith(t, "<!--");
    assert Markup(t) == Some((|s| + 3, []));
    assert [] + Tokens(rest) == Tokens(rest);
  }

  /** A comment is skipped up to its end mark. */
  lemma CommentIsSkipped(s: string, rest: string)
    requires Lacks("--" + s, "-->")
    ensures Tokens("<!--" + s + "-->" + rest) == Tokens(rest)
  {
    hide TagTokens, TextTokens, FindText;
    var t := "<!--" + s + "-->" + rest;
    CommentEnds(s, rest);
    assert t[..4] == "<!--";
    assert t[|s| + 7..] == rest;
    assert Markup(t) == Some((|s| + 7, []));
    assert [] + Tokens(rest) == Tokens(rest);
  }

  lemma StartsByChars(s: string)
    ensures StartsWith(s, "-->") <==> |s| >= 3 && s[0] == '-' && s[1] == '-' && s[2] == '>'
  {}

  lemma CommentEnds(s: string, rest: string)
    requires Lacks("--" + s, "-->")
    ensures FindText("<!--" + s + "-->" + rest, "-->") == Some(|s| + 4)
  {
    var a, mark := "<!--" + s, "-->";
    var t := a + mark + rest;
    forall k | 0 <= k < |a| ensures !StartsWith(t[k..], mark) {
      assert t[0] == '<' && t[1] == '!' && t[|a|] == '-' && t[|a| + 1] == '-';
      StartsByChars(t[k..]);
      if 2 <= k && k + 2 < |a| {
        assert !StartsWith(("--" + s)[k - 2..], mark);
        assert ("--" + s)[k - 2..][..3] == t[k..][..3];
      }
    }
    TextFirst(a, mark, rest);
  }

  /** The end mark is searched for from the start of the comment, so a comment may end in its own beginning. */
  lemma CommentMayEndAtOnce(rest: string)
    ensures Tokens("<!-->" + rest) == Tokens(rest)
  {
    var t := "<!-->" + rest;
    assert t[..4] == "<!--" && t[2..] == "-->" + rest && t[1..][1..] == t[2..] && t[5..] == rest;
    assert FindText(t[2..], "-->") == Some(0) by {
      assert t[2..][..3] == "-->";
    }
    assert t[..3] != "-->" && t[1..][..3] != "-->";
    assert FindText(t[1..], "-->") == Some(1);
    assert FindText(t, "-->") == Some(2);
    assert Markup(t) == Some((5, []));
    assert [] + Tokens(rest) == Tokens(rest);
  }

  /** Nothing is read from a construct that is not closed. */
  lemma UnclosedEndsTheTokens(s: string)
    ensures '>' !in s ==> Tokens("<" + s) == []
    ensures Lacks("<!--" + s, "-->") ==> Tokens("<!--" + s) == []
  {
    if '>' !in s {
      UnclosedTag(s);
    }
    var t := "<!--" + s;
    if Lacks(t, "-->") {
      LacksIsNotFound(t, "-->");
      assert t[..4] == "<!--";
      assert Markup(t) == None;
    }
  }

  lemma UnclosedTag(s: string)
    requires '>' !in s
    ensures Tokens("<" + s) == []
  {
    var t := "<" + s;
    NoEndMark(t);
    assert Markup(t) == None;
  }

  lemma NoEndMark(s: string)
    requires '>' !in s
    ensures FindText(s, "-->") == None
  {
    forall k | 0 <= k <= |s| ensures !StartsWith(s[k..], "-->") {
      assert |s[k..]| >= 3 ==> s[k..][..3][2] == s[k + 2];
    }
    LacksIsNotFound(s, "-->");
  }

  lemma {:induction false} LacksIsNotFound(s: string, t: string)
    requires Lacks(s, t)
    ensures FindText(s, t) == None
  {
    assert s[0..] == s;
    if s != [] {
      forall k | 0 <= k <= |s[1..]| ensures !StartsWith(s[1..][k..], t) {
        assert s[1..][k..] == s[k + 1..];
      }
      LacksIsNotFound(s[1..], t);
    }
  }

  // ----- Text between tags -----

  lemma TextRunTokens(raw: string, rest: string)
    requires raw != [] && '<' !in raw && (rest == [] || rest[0] == '<')
    ensures Tokens(raw + rest) == TextTokens(raw) + Tokens(rest)
  {
    hide TextTokens;
    var s := raw + rest;
    assert s[0] == raw[0] && raw[0] in raw;
    assert TextEnd(s) == |raw| by {
      if rest == [] {
        assert s == raw;
      } else {
        assert s == raw + ['<'] + rest[1..];
        FindFirst(raw, '<', rest[1..]);
      }
    }
    assert s[..|raw|] == raw && s[|raw|..] == rest;
  }

  lemma {:induction false} TrimBlank(s: string)
    requires IsBlank(s)
    ensures Trim(s) == []
  {
    if s != [] {
      assert forall i :: 0 <= i < |s[1..]| ==> s[1..][i] == s[i + 1];
      TrimBlank(s[1..]);
    }
  }

  lemma BlankTokens(ws: string, rest: string)
    requires IsBlank(ws) && (rest == [] || rest[0] == '<')
    ensures Tokens(ws + rest) == Tokens(rest)
  {
    if ws == [] {
      assert ws + rest == rest;
    } else {
      assert '<' !in ws && '&' !in ws;
      TextRunTokens(ws, rest);
      NothingToUnescape(ws);
      TrimBlank(ws);
    }
  }

  // ----- Gaps -----

  /** What is skipped, with the white space after it. */
  datatype Skip = Declaration(mark: char, text: string, ws: string) | Comment(text: string, ws: string)

  /** A gap: white space, then any number of declarations and comments with white space after each. */
  datatype Gap = Gap(ws: string, skips: seq<Skip>)

  function SkipText(k: Skip): string {
    match k
    case Declaration(mark, text, ws) => ("<" + [mark] + text + ">") + ws
    case Comment(text, ws) => ("<!--" + text + "-->") + ws
  }

  predicate IsSkip(k: Skip) {
    && IsBlank(k.ws)
    && match k
       case Declaration(mark, text, _) => mark in {'?', '!'} && '>' !in text && !(mark == '!' && StartsWith(text, "--"))
       case Comment(text, _) => Lacks("--" + text, "-->")
  }

  function SkipTexts(ks: seq<Skip>): (s: string)
    ensures s != [] <==> ks != []
    ensures s != [] ==> s[0] == '<'
  {
    if ks == [] then "" else SkipText(ks[0]) + SkipTexts(ks[1..])
  }

  function GapText(g: Gap): string { g.ws + SkipTexts(g.skips) }

  predicate IsGap(g: Gap) { IsBlank(g.ws) && forall i :: 0 <= i < |g.skips| ==> IsSkip(g.skips[i]) }

  lemma SkipHasNoTokens(k: Skip, rest: string)
    requires IsSkip(k) && (rest == [] || rest[0] == '<')
    ensures Tokens(SkipText(k) + rest) == Tokens(rest)
  {
    hide Tokens, Lacks, IsBlank, StartsWith;
    BlankTokens(k.ws, rest);
    match k
    case Declaration(mark, text, ws) =>
      assert SkipText(k) + rest == "<" + [mark] + text + ">" + (ws + rest);
      DeclarationIsSkipped(mark, text, ws + rest);
    case Comment(text, ws) =>
      assert SkipText(k) + rest == "<!--" + text + "-->" + (ws + rest);
      CommentIsSkipped(text, ws + rest);
  }

  lemma {:induction false} SkipsHaveNoTokens(ks: seq<Skip>, rest: string)
    requires (forall i :: 0 <= i < |ks| ==> IsSkip(ks[i])) && (rest == [] || rest[0] == '<')
    ensures Tokens(SkipTexts(ks) + rest) == Tokens(rest)
  {
    hide Tokens, IsSkip, SkipText;
    if ks == [] {
      assert "" + rest == rest;
    } else {
      var first, others := SkipText(ks[0]), SkipTexts(ks[1..]);
      assert SkipTexts(ks) == first + others;
      assert (first + others) + rest == first + (others + rest);
      SkipHasNoTokens(ks[0], others + rest);
      hide SkipTexts;
      SkipsHaveNoTokens(ks[1..], rest);
    }
  }

  /** A gap before a tag, or at the end, has no tokens. */
  lemma GapHasNoTokens(g: Gap, rest: string)
    requires IsGap(g) && (rest == [] || rest[0] == '<')
    ensures Tokens(GapText(g) + rest) == Tokens(rest)
  {
    hide Tokens, IsSkip, IsBlank;
    var after := SkipTexts(g.skips) + rest;
    assert GapText(g) + rest == g.ws + after;
    BlankTokens(g.ws, after);
    SkipsHaveNoTokens(g.skips, rest);
  }
}
