/** What else a table may hold: other forms of an address, and elements the importer does not know. */
module CeForms {
  import opened Wrappers
  import opened Bytes
  import opened Texts
  import opened Numbers
  import opened Values
  import opened CeImport
  import opened CeMarkup
  import opened CePrinting
  import opened CeRoundTrip

  // ----- Addresses -----

  /** A hexadecimal number may have a prefix and lower case digits. */
  lemma HexForms(n: u64)
    ensures ParseHex(Numeral(n, 16)) == Some(n)
    ensures ParseHex("0x" + Numeral(n, 16)) == Some(n) && ParseHex("0X" + Numeral(n, 16)) == Some(n)
    ensures ParseHex(ToLower(Numeral(n, 16))) == Some(n)
  {
    var num := Numeral(n, 16);
    NumeralReads(n, 16);
    LowerCaseReads(n);
    NumeralRoundTrip(n);
    hide Numeral, ParseHex, FromRadix;
    LowerHexText(num);
    hide ToLower, IsHexDigit, IsHexText;
    HexReads(num, n, "0x");
    HexReads(num, n, "0X");
    PlainHexReads(ToLower(num), n);
  }

  lemma LowerHexText(s: string)
    requires s != [] && forall i :: 0 <= i < |s| ==> IsHexDigit(s[i])
    ensures IsHexText(s) && IsHexText(ToLower(s))
  {
    var low := ToLower(s);
    forall i | 0 <= i < |s|
      ensures '0' <= low[i] <= '9' || 'a' <= low[i] <= 'f'
    {
      assert IsHexDigit(s[i]);
    }
  }

  predicate IsHexText(s: string) {
    s != [] && forall i :: 0 <= i < |s| ==> '0' <= s[i] <= '9' || 'A' <= s[i] <= 'F' || 'a' <= s[i] <= 'f'
  }

  lemma HexReads(num: string, n: u64, prefix: string)
    requires prefix in {"0x", "0X"} && IsHexText(num) && FromRadix(num, 16) == Some(n)
    ensures ParseHex(prefix + num) == Some(n)
  {
    hide FromRadix;
    var s := prefix + num;
    assert s[|s| - 1] == num[|num| - 1];
    TrimOfTrimmed(s);
    hide Trim, IsSpace;
    assert s[2..] == num;
  }

  lemma PlainHexReads(num: string, n: u64)
    requires IsHexText(num) && FromRadix(num, 16) == Some(n)
    ensures ParseHex(num) == Some(n)
  {
    hide FromRadix;
    TrimOfTrimmed(num);
    hide Trim, IsSpace;
  }

  /** White space around a number does not matter. */
  lemma PaddedHex(before: string, s: string, after: string)
    requires IsBlank(before) && IsBlank(after) && s != [] && IsTrimmed(s)
    ensures ParseHex(before + s + after) == ParseHex(s)
  {
    TrimPadded(before, s, after);
    TrimOfTrimmed(s);
    hide Trim;
  }

  lemma LowerCaseReads(n: u64)
    ensures FromRadix(ToLower(Numeral(n, 16)), 16) == Some(n)
  {
    var num := Numeral(n, 16);
    assert IsHexDigit(num[0]);
    DigitsOfNumeral(n, 16);
    CaseIsIgnored(num, 16, 0);
    hide Numeral, Digits;
  }

  /** A name that stands in an address without quotes. */
  predicate IsBareName(m: string) { IsModuleName(m) && m[0] != '"' }

  /** Without quotes, an offset follows the name with or without the hexadecimal prefix. */
  lemma BareModuleAddress(m: string, offset: string, base: u64)
    requires IsBareName(m) && ParseHex(offset) == Some(base)
    ensures ParseAddress(m + "+" + offset) == Some((Some(m), base))
  {
    var a := m + "+" + offset;
    hide ParseHex;
    BareNameIsTrimmed(m);
    TrimOfSum(m, offset);
    hide Trim, IsSpace;
    TrimEndIsPrefix(offset);
    FindFirst(m, '+', TrimEnd(offset));
    assert (m + "+" + TrimEnd(offset))[..|m|] == m;
    assert (m + "+" + TrimEnd(offset))[|m| + 1..] == TrimEnd(offset);
    TrimmedEndReads(offset);
  }

  lemma BareNameIsTrimmed(m: string)
    requires IsBareName(m)
    ensures StripQuotes(m) == m && !IsSpace(m[0]) && !IsSpace(m[|m| - 1])
  {
    TrimStartIsTrimmed(m);
    TrimEndIsTrimmed(TrimStart(m));
  }

  lemma TrimOfSum(m: string, offset: string)
    requires m != [] && !IsSpace(m[0])
    ensures Trim(m + "+" + offset) == m + "+" + TrimEnd(offset)
  {
    assert (m + "+" + offset)[0] == m[0];
    TrimEndAfter(m + "+", offset);
  }

  lemma TrimEndIsPrefix(s: string)
    ensures |TrimEnd(s)| <= |s|
  {}

  /** Trimming the end first does not matter. */
  lemma TrimmedEndReads(s: string)
    ensures ParseHex(TrimEnd(s)) == ParseHex(s)
  {
    TrimOfTrimEnd(s);
    hide Trim;
  }

  lemma {:induction false} TrimOfTrimEnd(s: string)
    ensures Trim(TrimEnd(s)) == Trim(s)
  {
    if s != [] && IsSpace(s[|s| - 1]) {
      var front, last := s[..|s| - 1], s[|s| - 1..];
      TrimOfTrimEnd(front);
      assert s == front + last;
      TrimOfPadded(front, last);
    }
  }

  lemma {:induction false} TrimOfPadded(s: string, pad: string)
    requires IsBlank(pad)
    ensures Trim(s + pad) == Trim(s)
  {
    if s == [] {
      assert s + pad == pad;
      TrimBlank(pad);
    } else if IsSpace(s[0]) {
      assert (s + pad)[1..] == s[1..] + pad;
      TrimOfPadded(s[1..], pad);
    } else {
      TrimEndDrops(s, pad);
    }
  }

  /** Without a plus sign an address is a hexadecimal number if it can be read as one, and a module's base
      otherwise. */
  lemma AddressWithoutOffset(m: string, n: u64)
    ensures ParseAddress("0x" + Numeral(n, 16)) == Some((None, n))
    ensures ParseAddress(Numeral(n, 16)) == Some((None, n))
    ensures ParseAddress("+" + Numeral(n, 16)) == Some((None, n))
    ensures IsBareName(m) ==>
              ParseAddress(m) == if ParseHex(m).Some? then Some((None, ParseHex(m).value)) else Some((Some(m), 0))
    ensures IsModuleName(m) ==> ParseAddress(Quoted(m)) == Some((Some(m), 0))
    ensures ParseAddress("") == None
  {
    NumbersAreAddresses(n);
    if IsModuleName(m) {
      QuotedNameIsAddress(m);
    }
    if IsBareName(m) {
      BareNameIsTrimmed(m);
      hide ParseHex, Trim, IsSpace;
    }
  }

  lemma NumbersAreAddresses(n: u64)
    ensures ParseAddress("0x" + Numeral(n, 16)) == Some((None, n))
    ensures ParseAddress(Numeral(n, 16)) == Some((None, n))
    ensures ParseAddress("+" + Numeral(n, 16)) == Some((None, n))
  {
    HexForms(n);
    hide *;
    assert "" + Numeral(n, 16) == Numeral(n, 16);
    NumberIsAddress(n, "");
    NumberIsAddress(n, "0x");
    SignedNumberIsAddress(n);
  }

  lemma NumberIsAddress(n: u64, prefix: string)
    requires prefix in {"", "0x"} && ParseHex(prefix + Numeral(n, 16)) == Some(n)
    ensures ParseAddress(prefix + Numeral(n, 16)) == Some((None, n))
  {
    var num := Numeral(n, 16);
    assert IsHexDigit(num[0]) && IsHexDigit(num[|num| - 1]);
    hide Numeral, ParseHex;
    TrimOfTrimmed(prefix + num);
    hide Trim;
    assert Find(prefix + num, '+') == None;
  }

  lemma SignedNumberIsAddress(n: u64)
    requires ParseHex(Numeral(n, 16)) == Some(n)
    ensures ParseAddress("+" + Numeral(n, 16)) == Some((None, n))
  {
    var num := Numeral(n, 16);
    assert IsHexDigit(num[|num| - 1]);
    hide Numeral, ParseHex;
    TrimOfTrimmed("+" + num);
    EmptyName();
    hide Trim;
    FindFirst("", '+', num);
    assert "" + ['+'] + num == "+" + num && ("+" + num)[..0] == "" && ("+" + num)[1..] == num;
  }

  lemma EmptyName()
    ensures Trim(StripQuotes("")) == "" && Trim("") == ""
  {}

  lemma QuotedNameIsAddress(m: string)
    requires IsModuleName(m)
    ensures ParseAddress(Quoted(m)) == Some((Some(m), 0))
  {
    StripQuoted(m);
    var q := Quoted(m);
    assert DigitValue(q[0]) == None;
    assert ParseHex(q) == None by {
      hide Trim, Quoted;
    }
    hide ParseHex, Trim;
    assert '+' !in q;
  }

  // ----- Elements that are ignored -----

  const FIELDS: set<string> := {"description", "variabletype", "address", "length", "unicode", "offset"}

  /** An element with text outside of any entry, an element that is no field, an offset outside of an offset list,
      and one that is no number. */
  predicate IsIgnored(name: string, text: string, st: State) {
    && name !in {"cheatentry", "offsets"}
    && (st.stack == [] || name !in FIELDS || (name == "offset" && (!st.inOffsets || ParseHex(text) == None)))
  }

  /** Such an element changes nothing. */
  lemma ElementIsIgnored(name: string, text: string, st: State)
    requires IsIgnored(ToLower(name), text, st)
    ensures RunPieces([Leaf(name, text)], st) == st.(curTag := "")
  {
    hide ToLower, ParseHex;
    var lower := ToLower(name);
    var toks := [Start(lower), Chars(text), End(lower)];
    var p := Leaf(name, text);
    assert [p][1..] == [];
    assert AllTokens([p]) == PieceTokens(p) + [] == toks;
    assert toks[1..] == [Chars(text), End(lower)] && toks[1..][1..] == [End(lower)]
           && toks[1..][1..][1..] == [];
    var s1 := Step(st, toks[0]);
    var s2 := Step(s1, Chars(text));
    assert s2 == s1;
    assert Run(toks, st) == Run(toks[1..], s1) == Run(toks[1..][1..], s2) == Run([], Step(s2, End(lower)));
  }

  /** The last tag matters to text only, and every piece starts with a tag. */
  lemma LastTagIsReplaced(ps: seq<Piece>, st: State)
    ensures RunPieces(ps, st.(curTag := "")).out == RunPieces(ps, st).out
    ensures ps != [] ==> RunPieces(ps, st.(curTag := "")) == RunPieces(ps, st)
  {
    hide ToLower, Finalize;
    if ps != [] {
      var toks := AllTokens(ps);
      assert toks[0] == PieceTokens(ps[0])[0];
      assert Step(st, toks[0]) == Step(st.(curTag := ""), toks[0]);
    }
  }

  /** An element that is no field of an entry may stand anywhere in a table. */
  lemma UnknownElementIsIgnored(a: seq<Piece>, name: string, text: string, b: seq<Piece>, start: Gap,
                                at: nat -> Style, start': Gap, at': nat -> Style)
    requires AllPrintable(a) && AllPrintable(b) && IsPrintable(Leaf(name, text))
    requires IsGap(start) && IsGap(start') && AllStyles(at) && AllStyles(at')
    requires ToLower(name) !in FIELDS + {"cheatentry", "offsets"}
    ensures Parse(GapText(start) + PrintAll(a + [Leaf(name, text)] + b, 0, at))
            == Parse(GapText(start') + PrintAll(a + b, 0, at'))
  {
    var leaf := [Leaf(name, text)];
    DocumentIsTokenized(a + leaf + b, start, at);
    DocumentIsTokenized(a + b, start', at');
    UnknownElementRuns(a, name, text, b);
    AllTokensConcat(a, b);
    AllTokensConcat(a + leaf, b);
    AllTokensConcat(a, leaf);
    hide ToLower, Tokens, PrintAll, GapText, IsPrintable, AllTokens, Step, Run, PieceTokens;
    assert Parse(GapText(start) + PrintAll(a + leaf + b, 0, at)).Some?
           <==> Start("cheatentry") in AllTokens(a + leaf + b);
    assert Parse(GapText(start') + PrintAll(a + b, 0, at')).Some? <==> Start("cheatentry") in AllTokens(a + b);
    OneLeafToken(name, text);
  }

  lemma OneLeafToken(name: string, text: string)
    ensures AllTokens([Leaf(name, text)]) == [Start(ToLower(name)), Chars(text), End(ToLower(name))]
  {
    hide ToLower;
    assert [Leaf(name, text)][1..] == [];
  }

  lemma UnknownElementRuns(a: seq<Piece>, name: string, text: string, b: seq<Piece>)
    requires ToLower(name) !in FIELDS + {"cheatentry", "offsets"}
    ensures RunPieces(a + [Leaf(name, text)] + b, INITIAL).out == RunPieces(a + b, INITIAL).out
  {
    hide RunPieces, ToLower;
    var leaf := [Leaf(name, text)];
    var mid := RunPieces(a, INITIAL);
    RunPiecesConcat(a + leaf, b, INITIAL);
    RunPiecesConcat(a, leaf, INITIAL);
    RunPiecesConcat(a, b, INITIAL);
    ElementIsIgnored(name, text, mid);
    LastTagIsReplaced(b, mid);
  }
}
