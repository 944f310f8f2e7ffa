/** Printing a forest of entries and importing it gives back its usable entries, children before parents. */
module CeRoundTrip {
  import opened Wrappers
  import opened Bytes
  import opened Sequences
  import opened Texts
  import opened Numbers
  import opened Values
  import opened CeImport
  import opened CeMarkup
  import opened CePrinting

  // ----- Numbers -----

  /** Parsing a printed number gives it back. */
  lemma NumeralRoundTrip(n: u64)
    ensures ParseHex(Numeral(n, 16)) == Some(n) && ParseDecimal(Numeral(n, 10)) == Some(n)
    ensures Trim(Numeral(n, 16)) == Numeral(n, 16) && Trim(Numeral(n, 10)) == Numeral(n, 10)
  {
    hide Digits, Numeral;
    var h, d := Numeral(n, 16), Numeral(n, 10);
    DigitsOfNumeral(n, 16);
    DigitsOfNumeral(n, 10);
    assert IsHexDigit(h[0]) && IsHexDigit(h[|h| - 1]) && (|h| >= 2 ==> IsHexDigit(h[1]));
    assert IsHexDigit(d[0]) && IsHexDigit(d[|d| - 1]);
    TrimOfTrimmed(h);
    TrimOfTrimmed(d);
    hide Trim;
  }

  // ----- Forests -----

  datatype Kind = Number(vt: ValueType) | Str(unicode: bool, length: Option<u64>) | Unsupported(name: string) | NoKind

  datatype Address = Address(mod: Option<string>, base: u64)

  /** Where the nested entries stand among the fields of their parent. */
  datatype Nesting = BeforeFields | BetweenFields | AfterFields

  /** An entry of a table; offsets in base-to-target order. */
  datatype Node = Node(desc: string, kind: Kind, address: Option<Address>, offsets: seq<u64>,
                       children: seq<Node>, nesting: Nesting)

  function NumberName(vt: ValueType): string {
    match vt
    case I8 => "Byte"
    case I16 => "2 Bytes"
    case I32 => "4 Bytes"
    case I64 => "8 Bytes"
    case F32 => "Float"
    case F64 => "Double"
    case _ => ""
  }

  predicate HasName(vt: ValueType) { vt in {I8, I16, I32, I64, F32, F64} }

  /** Names that the address syntax can carry. */
  predicate IsModuleName(m: string) { m != [] && Trim(m) == m && '+' !in m }

  /** What can be printed: supported kinds by their names, others by a name the importer does not know. */
  predicate NodePrintable(n: Node) {
    && (n.kind.Number? ==> HasName(n.kind.vt))
    && (n.kind.Unsupported? ==>
      Trim(n.kind.name) != [] && MapType(n.kind.name, false) == None && MapType(n.kind.name, true) == None)
    && (n.address.Some? && n.address.value.mod.Some? ==> IsModuleName(n.address.value.mod.value))
  }

  ghost predicate ForestPrintable(ns: seq<Node>) {
    forall i :: 0 <= i < |ns| ==> NodePrintable(ns[i]) && ForestPrintable(ns[i].children)
  }

  // ----- The printer -----

  function Quoted(s: string): string { ['"'] + s + ['"'] }

  function KindPieces(k: Kind): seq<Piece> {
    match k
    case Number(vt) => [Leaf("VariableType", NumberName(vt))]
    case Str(unicode, length) =>
      [Leaf("VariableType", "String")]
      + (if length.Some? then [Leaf("Length", Numeral(length.value, 10))] else [])
      + [Leaf("Unicode", if unicode then "1" else "0")]
    case Unsupported(name) => [Leaf("VariableType", name)]
    case NoKind => []
  }

  function AddressText(a: Address): string {
    match a.mod
    case None => Numeral(a.base, 16)
    case Some(m) => Quoted(m) + ['+'] + Numeral(a.base, 16)
  }

  /** The table lists offsets from the target back to the base. */
  function OffsetPieces(offsets: seq<u64>): seq<Piece> {
    if offsets == [] then [] else OffsetPieces(offsets[1..]) + [Leaf("Offset", Numeral(offsets[0], 16))]
  }

  /** Description and type. */
  function HeadPieces(n: Node): seq<Piece> { [Leaf("Description", Quoted(n.desc))] + KindPieces(n.kind) }

  /** Address and offsets. */
  function TailPieces(n: Node): seq<Piece> {
    (if n.address.Some? then [Leaf("Address", AddressText(n.address.value))] else [])
    + ([Begin("Offsets")] + OffsetPieces(n.offsets) + [Finish("Offsets")])
  }

  /** The nested entries, if they stand at this place. */
  function NestedPieces(n: Node, place: Nesting): seq<Piece>
    decreases n, 0
  {
    if n.nesting == place then [Begin("CheatEntries")] + ForestPieces(n.children) + [Finish("CheatEntries")] else []
  }

  function NodePieces(n: Node): seq<Piece>
    decreases n, 1
  {
    [Begin("CheatEntry")] + NestedPieces(n, BeforeFields) + HeadPieces(n) + NestedPieces(n, BetweenFields)
      + TailPieces(n)
    + NestedPieces(n, AfterFields) + [Finish("CheatEntry")]
  }

  function ForestPieces(ns: seq<Node>): seq<Piece>
    decreases ns, 2
  {
    if ns == [] then [] else NodePieces(ns[0]) + ForestPieces(ns[1..])
  }

  function DocumentPieces(ns: seq<Node>): seq<Piece> {
    [Begin("CheatTable"), Begin("CheatEntries")] + ForestPieces(ns) + [Finish("CheatEntries"), Finish("CheatTable")]
  }

  /** A document: what stands before its first tag, usually an XML declaration, and the pieces. */
  function PrintForest(ns: seq<Node>, start: Gap, at: nat -> Style): string {
    GapText(start) + PrintAll(DocumentPieces(ns), 0, at)
  }

  // ----- What importing must give -----

  function ExpectedType(k: Kind): Option<ValueType> {
    match k
    case Number(vt) => Some(vt)
    case Str(unicode, _) => Some(if unicode then StringUtf16 else StringUtf8)
    case _ => None
  }

  function ExpectedLength(k: Kind): u64 {
    match k
    case Str(unicode, length) =>
      var chars := if length.None? then 16 else if length.value == 0 then 1 else length.value;
      if unicode then (2 * chars) % TWO64 else chars
    case _ => 0
  }

  /** Usable: it has an address, and a known type or at least one offset. */
  function ExpectedEntry(n: Node): seq<CeEntry> {
    if n.address.Some? && (ExpectedType(n.kind).Some? || n.offsets != []) then
      [CeEntry(n.desc, ExpectedType(n.kind), n.address.value.mod, n.address.value.base, n.offsets,
               ExpectedLength(n.kind))]
    else []
  }

  /** Post-order: an entry closes after its children. */
  function ExpectedNode(n: Node): seq<CeEntry> { ExpectedForest(n.children) + ExpectedEntry(n) }

  function ExpectedForest(ns: seq<Node>): seq<CeEntry> {
    if ns == [] then [] else ExpectedNode(ns[0]) + ExpectedForest(ns[1..])
  }

  // ----- Fields -----

  lemma StripQuoted(s: string)
    ensures StripQuotes(Quoted(s)) == s && Trim(Quoted(s)) == Quoted(s)
  {
    var q := Quoted(s);
    assert q[0] == '"' && q[|q| - 1] == '"';
    TrimOfTrimmed(q);
    assert q[1..|q| - 1] == s;
  }

  lemma AddressIsTrimmed(a: Address)
    ensures Trim(AddressText(a)) == AddressText(a) && AddressText(a) != []
  {
    hide Numeral, Trim;
    NumeralRoundTrip(a.base);
    var num := Numeral(a.base, 16);
    assert IsHexDigit(num[|num| - 1]);
    if a.mod.Some? {
      var t := AddressText(a);
      assert t[0] == '"' && t[|t| - 1] == num[|num| - 1];
      TrimOfTrimmed(t);
    }
  }

  /** A module name survives the address syntax exactly when it is not empty, trimmed and has no '+'. */
  lemma ModuleAddressRoundTrip(m: string, base: u64)
    ensures ParseAddress(Quoted(m) + ['+'] + Numeral(base, 16)) == Some((Some(m), base)) <==> IsModuleName(m)
  {
    hide Numeral, Trim, Find, ParseHex;
    var num := Numeral(base, 16);
    var t := Quoted(m) + ['+'] + num;
    AddressIsTrimmed(Address(Some(m), base));
    NumeralRoundTrip(base);
    StripQuoted(m);
    if '+' !in m {
      assert '+' !in Quoted(m);
      FindFirst(Quoted(m), '+', num);
      assert t[..|m| + 2] == Quoted(m) && t[|m| + 3..] == num;
    } else {
      PlusInName(m, num, base);
    }
  }

  /** With a '+' inside the name the address splits too early. */
  lemma PlusInName(m: string, num: string, base: u64)
    requires '+' in m
    ensures ParseAddress(Quoted(m) + ['+'] + num) != Some((Some(m), base))
  {
    hide ParseHex;
    var t := Quoted(m) + ['+'] + num;
    var a := Trim(t);
    var r := ParseAddress(t);
    if r == Some((Some(m), base)) && Find(a, '+').Some? {
      var plus := Find(a, '+').value;
      NameHasNoPlus(a[..plus]);
    } else if r == Some((Some(m), base)) {
      NameHasNoPlus(a);
    }
  }

  /** Stripping and trimming never introduce a character. */
  lemma NameHasNoPlus(s: string)
    requires '+' !in s
    ensures '+' !in Trim(StripQuotes(s))
  {
    TrimIsPart(s, '+');
    TrimIsPart(StripQuotes(s), '+');
  }

  lemma {:induction false} TrimStartIsPart(s: string, c: char)
    requires c !in s
    ensures c !in TrimStart(s)
  {
    if s != [] && IsSpace(s[0]) {
      TrimStartIsPart(s[1..], c);
    }
  }

  lemma {:induction false} TrimEndIsPart(s: string, c: char)
    requires c !in s
    ensures c !in TrimEnd(s)
  {
    if s != [] && IsSpace(s[|s| - 1]) {
      TrimEndIsPart(s[..|s| - 1], c);
    }
  }

  lemma TrimIsPart(s: string, c: char)
    requires c !in s
    ensures c !in Trim(s)
  {
    TrimStartIsPart(s, c);
    TrimEndIsPart(TrimStart(s), c);
  }

  lemma AddressRoundTrip(a: Address)
    requires a.mod.Some? ==> IsModuleName(a.mod.value)
    ensures ParseAddress(AddressText(a)) == Some((a.mod, a.base))
  {
    match a.mod
    case Some(m) => ModuleAddressRoundTrip(m, a.base);
    case None =>
      hide Numeral, Trim, ParseHex;
      var num := Numeral(a.base, 16);
      AddressIsTrimmed(a);
      NumeralRoundTrip(a.base);
      assert forall i :: 0 <= i < |num| ==> IsHexDigit(num[i]);
      assert Find(num, '+').None?;
  }

  // ----- The stack machine on printed pieces -----

  lemma LowerCaseNames()
    ensures ToLower("Description") == "description" && ToLower("VariableType") == "variabletype"
            && ToLower("Address") == "address"
    ensures ToLower("Length") == "length" && ToLower("Unicode") == "unicode" && ToLower("Offset") == "offset"
    ensures ToLower("Offsets") == "offsets" && ToLower("CheatEntry") == "cheatentry"
            && ToLower("CheatEntries") == "cheatentries"
    ensures ToLower("CheatTable") == "cheattable"
  {}

  lemma {:induction false} RunConcat(a: seq<Tok>, b: seq<Tok>, st: State)
    ensures Run(a + b, st) == Run(b, Run(a, st))
    decreases |a|
  {
    hide Step;
    if a == [] {
      assert [] + b == b;
    } else {
      assert (a + b)[0] == a[0] && (a + b)[1..] == a[1..] + b;
      RunConcat(a[1..], b, Step(st, a[0]));
    }
  }

  function RunPieces(ps: seq<Piece>, st: State): State { Run(AllTokens(ps), st) }

  lemma RunPiecesConcat(a: seq<Piece>, b: seq<Piece>, st: State)
    ensures RunPieces(a + b, st) == RunPieces(b, RunPieces(a, st))
  {
    AllTokensConcat(a, b);
    RunConcat(AllTokens(a), AllTokens(b), st);
  }

  function Top(st: State): Builder
    requires st.stack != []
  {
    st.stack[|st.stack| - 1]
  }

  function WithTop(st: State, b: Builder): State
    requires st.stack != []
  {
    State(st.out, st.stack[|st.stack| - 1 := b], "", st.inOffsets)
  }

  /** An element with text sets its field of the innermost open entry. */
  lemma RunLeaf(name: string, lower: string, text: string, st: State)
    requires ToLower(name) == lower && lower != "cheatentry" && lower != "offsets" && st.stack != []
    ensures RunPieces([Leaf(name, text)], st) == WithTop(st, SetField(Top(st), lower, text, st.inOffsets))
  {
    hide SetField, ToLower;
    var p := Leaf(name, text);
    assert [p][1..] == [];
    assert AllTokens([p]) == PieceTokens(p) + [];
    var toks := [Start(lower), Chars(text), End(lower)];
    assert AllTokens([p]) == toks && toks[1..] == [Chars(text), End(lower)] && toks[1..][1..] == [End(lower)]
           && toks[1..][1..][1..] == [];
    var s1 := Step(st, toks[0]);
    var s2 := Step(s1, Chars(text));
    assert Run(toks, st) == Run(toks[1..], s1) == Run(toks[1..][1..], s2) == Run([], Step(s2, End(lower)));
  }

  lemma RunMark(p: Piece, st: State)
    requires !p.Leaf?
    ensures RunPieces([p], st) == Step(st, if p.Begin? then Start(ToLower(p.name)) else End(ToLower(p.name)))
  {
    hide Step, ToLower;
    assert [p][1..] == [];
    var tok := if p.Begin? then Start(ToLower(p.name)) else End(ToLower(p.name));
    assert AllTokens([p]) == PieceTokens(p) + AllTokens([p][1..]) == [tok] + [] == [tok];
    assert [tok][1..] == [];
    assert Run([tok], st) == Run([tok][1..], Step(st, tok)) == Step(st, tok);
  }

  /** Offsets are pushed in the order of the table: the reverse of base-to-target order. */
  lemma {:induction false} RunOffsets(offsets: seq<u64>, st: State)
    requires st.stack != [] && st.inOffsets
    ensures var r := RunPieces(OffsetPieces(offsets), st);
            && r.out == st.out && r.inOffsets && |r.stack| == |st.stack|
            && r.stack == st.stack[|st.stack| - 1 := Top(st).(offsets := Top(st).offsets + Reverse(offsets))]
  {
    hide Numeral, Digits, ToLower, AllTokens, Run;
    if offsets == [] {
      NothingRuns(st);
      assert Top(st).offsets + [] == Top(st).offsets;
    } else {
      RunOffsets(offsets[1..], st);
      var mid := RunPieces(OffsetPieces(offsets[1..]), st);
      var last := [Leaf("Offset", Numeral(offsets[0], 16))];
      RunPiecesConcat(OffsetPieces(offsets[1..]), last, st);
      LowerCaseNames();
      RunLeaf("Offset", "offset", Numeral(offsets[0], 16), mid);
      NumeralRoundTrip(offsets[0]);
      assert Top(st).offsets + (Reverse(offsets[1..]) + [offsets[0]])
             == (Top(st).offsets + Reverse(offsets[1..])) + [offsets[0]];
    }
  }

  lemma NothingRuns(st: State)
    ensures RunPieces([], st) == st
  {}

  // ----- One entry -----

  function WithKind(b: Builder, k: Kind): Builder {
    match k
    case Number(vt) => b.(varType := NumberName(vt))
    case Str(unicode, length) => b.(varType := "String", length := length, unicode := unicode)
    case Unsupported(name) => b.(varType := Trim(name))
    case NoKind => b
  }

  function AddressField(n: Node): string { if n.address.Some? then AddressText(n.address.value) else "" }

  /** The builder after the description and the type. */
  function HeadOf(n: Node): Builder { WithKind(EMPTY_BUILDER.(desc := n.desc), n.kind) }

  /** The builder the fields of a node fill in. */
  function BuilderOf(n: Node): Builder {
    WithKind(EMPTY_BUILDER.(desc := n.desc,
                            address := AddressField(n),
                            offsets := Reverse(n.offsets)), n.kind)
  }

  lemma NumberNamesAreTrimmed(vt: ValueType)
    requires HasName(vt)
    ensures Trim(NumberName(vt)) == NumberName(vt) && Trim("String") == "String" && Trim("1") == "1" && Trim("0") == "0"
  {}

  lemma RunKind(k: Kind, st: State)
    requires st.stack != [] && (k.Number? ==> HasName(k.vt))
    requires Top(st).length == None && !Top(st).unicode
    ensures var r := RunPieces(KindPieces(k), st);
            r.out == st.out && r.inOffsets == st.inOffsets
              && r.stack == st.stack[|st.stack| - 1 := WithKind(Top(st), k)]
  {
    hide Numeral, Digits, ToLower, AllTokens, Run, NumberName;
    LowerCaseNames();
    NumberNamesAreTrimmed(I8);
    match k
    case Number(vt) =>
      NumberNamesAreTrimmed(vt);
      hide Trim;
      RunLeaf("VariableType", "variabletype", NumberName(vt), st);
    case Unsupported(name) =>
      hide Trim;
      RunLeaf("VariableType", "variabletype", name, st);
    case NoKind => NothingRuns(st);
    case Str(unicode, length) =>
      hide Trim;
      var flag := if unicode then "1" else "0";
      var kind, uni := [Leaf("VariableType", "String")], [Leaf("Unicode", flag)];
      var len := if length.Some? then [Leaf("Length", Numeral(length.value, 10))] else [];
      RunPiecesConcat(kind + len, uni, st);
      RunPiecesConcat(kind, len, st);
      RunLeaf("VariableType", "variabletype", "String", st);
      var s1 := RunPieces(kind, st);
      var s2 := RunPieces(len, s1);
      if length.Some? {
        NumeralRoundTrip(length.value);
        RunLeaf("Length", "length", Numeral(length.value, 10), s1);
      } else {
        NothingRuns(s1);
      }
      RunLeaf("Unicode", "unicode", flag, s2);
  }

  lemma RunAddress(n: Node, st: State)
    requires st.stack != [] && Top(st).address == ""
    ensures var r := RunPieces(if n.address.Some? then [Leaf("Address", AddressText(n.address.value))] else [], st);
            r.out == st.out && r.inOffsets == st.inOffsets
            && r.stack == st.stack[|st.stack| - 1 := Top(st).(address := AddressField(n))]
  {
    hide ToLower, AllTokens, Run, AddressText, Trim;
    LowerCaseNames();
    if n.address.Some? {
      AddressIsTrimmed(n.address.value);
      RunLeaf("Address", "address", AddressText(n.address.value), st);
    } else {
      NothingRuns(st);
    }
  }

  lemma RunOffsetList(offsets: seq<u64>, st: State)
    requires st.stack != [] && !st.inOffsets
    ensures var r := RunPieces([Begin("Offsets")] + OffsetPieces(offsets) + [Finish("Offsets")], st);
            r.out == st.out && !r.inOffsets && r.curTag == ""
            && r.stack == st.stack[|st.stack| - 1 := Top(st).(offsets := Top(st).offsets + Reverse(offsets))]
  {
    hide ToLower, AllTokens, Run, OffsetPieces, Reverse, RunPieces;
    LowerCaseNames();
    var open, list, close := [Begin("Offsets")], OffsetPieces(offsets), [Finish("Offsets")];
    RunPiecesConcat(open + list, close, st);
    RunPiecesConcat(open, list, st);
    RunMark(Begin("Offsets"), st);
    var s1 := RunPieces(open, st);
    RunOffsets(offsets, s1);
    RunMark(Finish("Offsets"), RunPieces(list, s1));
  }

  /** Description and type fill the innermost builder. */
  lemma RunHead(n: Node, st: State)
    requires st.stack != [] && Top(st) == EMPTY_BUILDER && !st.inOffsets
    requires n.kind.Number? ==> HasName(n.kind.vt)
    ensures var r := RunPieces(HeadPieces(n), st);
            r.out == st.out && !r.inOffsets && r.stack == st.stack[|st.stack| - 1 := HeadOf(n)]
  {
    hide ToLower, AllTokens, Run, RunPieces, KindPieces, Trim;
    LowerCaseNames();
    var desc, kind := [Leaf("Description", Quoted(n.desc))], KindPieces(n.kind);
    RunPiecesConcat(desc, kind, st);
    StripQuoted(n.desc);
    RunLeaf("Description", "description", Quoted(n.desc), st);
    RunKind(n.kind, RunPieces(desc, st));
  }

  /** Address and offsets complete it. */
  lemma RunTail(n: Node, st: State)
    requires st.stack != [] && Top(st) == HeadOf(n) && !st.inOffsets
    ensures var r := RunPieces(TailPieces(n), st);
            r.out == st.out && !r.inOffsets && r.stack == st.stack[|st.stack| - 1 := BuilderOf(n)]
  {
    hide ToLower, AllTokens, Run, OffsetPieces, Reverse, RunPieces, AddressText, Trim;
    var addr := if n.address.Some? then [Leaf("Address", AddressText(n.address.value))] else [];
    var offs := [Begin("Offsets")] + OffsetPieces(n.offsets) + [Finish("Offsets")];
    RunPiecesConcat(addr, offs, st);
    RunAddress(n, st);
    RunOffsetList(n.offsets, RunPieces(addr, st));
    assert [] + Reverse(n.offsets) == Reverse(n.offsets);
  }

  lemma {:induction false} ReverseTwice<T>(s: seq<T>)
    ensures Reverse(Reverse(s)) == s
  {
    assert forall i :: 0 <= i < |s| ==> Reverse(Reverse(s))[i] == Reverse(s)[|s| - 1 - i] == s[i];
  }

  lemma MapTypeOfKind(k: Kind)
    requires k.Number? ==> HasName(k.vt)
    requires k.Unsupported? ==> MapType(k.name, false) == None && MapType(k.name, true) == None
    ensures MapType(WithKind(EMPTY_BUILDER, k).varType, WithKind(EMPTY_BUILDER, k).unicode) == ExpectedType(k)
  {
    match k
    case Number(vt) => NumberNamesMap(vt);
    case Str(unicode, _) => StringMaps(unicode);
    case Unsupported(name) => TrimTwice(name);
    case NoKind =>
  }

  lemma NumberNamesMap(vt: ValueType)
    requires HasName(vt)
    ensures MapType(NumberName(vt), false) == Some(vt)
  {
    NumberNamesAreTrimmed(vt);
    LowerNumberName(vt);
    hide Trim, ToLower;
  }

  lemma LowerNumberName(vt: ValueType)
    requires HasName(vt)
    ensures ToLower(NumberName(vt))
            == match vt case I8 => "byte" case I16 => "2 bytes" case I32 => "4 bytes" case I64 => "8 bytes"
                                                case F32 => "float" case _ => "double"
  {}

  lemma StringMaps(unicode: bool)
    ensures MapType("String", unicode) == Some(if unicode then StringUtf16 else StringUtf8)
  {
    NumberNamesAreTrimmed(I8);
    hide Trim;
    assert ToLower("String") == "string";
    hide ToLower;
  }

  /** Converting the builder of a node gives the expected entry, offsets back in base-to-target order. */
  lemma FinalizeNode(n: Node)
    requires NodePrintable(n)
    ensures ExpectedEntry(n) == match Finalize(BuilderOf(n)) case Some(e) => [e] case None => []
  {
    hide MapType, ParseAddress, AddressText, Reverse, Trim, NumberName, ExpectedType;
    MapTypeOfKind(n.kind);
    ReverseTwice(n.offsets);
    var b := BuilderOf(n);
    assert MapType(b.varType, b.unicode) == ExpectedType(n.kind);
    assert b.offsets == [] <==> n.offsets == [];
    if n.address.Some? {
      AddressRoundTrip(n.address.value);
    } else {
      NoAddress();
    }
    LengthOfKind(n.kind);
  }

  lemma NoAddress()
    ensures ParseAddress("") == None
  {}

  lemma LengthOfKind(k: Kind)
    requires k.Number? ==> HasName(k.vt)
    ensures var b := WithKind(EMPTY_BUILDER, k);
            ExpectedLength(k)
              == if ExpectedType(k).Some? && ExpectedType(k).value.IsString()
                 then StringLength(b.length, b.unicode) else 0
  {
    hide NumberName;
  }

  // ----- Whole forests -----

  /** Text ownership: running a printed node, whatever entries are open, adds exactly its usable entries to
      the output and leaves the open entries as they were. */
  lemma {:induction false} RunNode(n: Node, st: State)
    requires NodePrintable(n) && ForestPrintable(n.children) && !st.inOffsets
    ensures var r := RunPieces(NodePieces(n), st);
            r.out == st.out + ExpectedNode(n) && r.stack == st.stack && !r.inOffsets
    decreases n, 1
  {
    hide ToLower, AllTokens, Run, RunPieces, HeadPieces, TailPieces, NestedPieces, HeadOf, BuilderOf, Finalize;
    hide ExpectedEntry, NodePrintable, ForestPrintable;
    LowerCaseNames();
    var open, close := [Begin("CheatEntry")], [Finish("CheatEntry")];
    var first, head, between := NestedPieces(n, BeforeFields), HeadPieces(n), NestedPieces(n, BetweenFields);
    var tail, last := TailPieces(n), NestedPieces(n, AfterFields);
    RunPiecesConcat(open + first + head + between + tail + last, close, st);
    RunPiecesConcat(open + first + head + between + tail, last, st);
    RunPiecesConcat(open + first + head + between, tail, st);
    RunPiecesConcat(open + first + head, between, st);
    RunPiecesConcat(open + first, head, st);
    RunPiecesConcat(open, first, st);
    RunMark(open[0], st);
    var s1 := RunPieces(open, st);
    RunNested(n, BeforeFields, s1);
    var s2 := RunPieces(first, s1);
    NodeHasName(n);
    RunHead(n, s2);
    var s3 := RunPieces(head, s2);
    RunNested(n, BetweenFields, s3);
    var s4 := RunPieces(between, s3);
    RunTail(n, s4);
    var s5 := RunPieces(tail, s4);
    RunNested(n, AfterFields, s5);
    var s6 := RunPieces(last, s5);
    RunMark(close[0], s6);
    FinalizeNode(n);
    assert s6.stack == st.stack + [BuilderOf(n)];
    assert s6.out == st.out + ExpectedForest(n.children);
    assert (st.out + ExpectedForest(n.children)) + ExpectedEntry(n)
           == st.out + (ExpectedForest(n.children) + ExpectedEntry(n));
  }

  /** Nested entries leave the fields of their parent alone, wherever they stand. */
  lemma {:induction false} RunNested(n: Node, place: Nesting, st: State)
    requires ForestPrintable(n.children) && !st.inOffsets
    ensures var r := RunPieces(NestedPieces(n, place), st);
            && r.out == (if n.nesting == place then st.out + ExpectedForest(n.children) else st.out)
            && r.stack == st.stack && !r.inOffsets
    decreases n, 0
  {
    hide ToLower, AllTokens, Run, RunPieces, ForestPieces, ForestPrintable;
    LowerCaseNames();
    if n.nesting == place {
      var open, list, close := [Begin("CheatEntries")], ForestPieces(n.children), [Finish("CheatEntries")];
      RunPiecesConcat(open + list, close, st);
      RunPiecesConcat(open, list, st);
      RunMark(open[0], st);
      RunForest(n.children, RunPieces(open, st));
      RunMark(close[0], RunPieces(list, RunPieces(open, st)));
    } else {
      NothingRuns(st);
    }
  }

  lemma NodeHasName(n: Node)
    requires NodePrintable(n)
    ensures n.kind.Number? ==> HasName(n.kind.vt)
  {}

  lemma {:induction false} RunForest(ns: seq<Node>, st: State)
    requires ForestPrintable(ns) && !st.inOffsets
    ensures var r := RunPieces(ForestPieces(ns), st);
            r.out == st.out + ExpectedForest(ns) && r.stack == st.stack && !r.inOffsets
    decreases ns, 2
  {
    hide RunPieces, NodePieces, ExpectedNode, NodePrintable;
    if ns == [] {
      NothingRuns(st);
      assert st.out + [] == st.out;
    } else {
      RunPiecesConcat(NodePieces(ns[0]), ForestPieces(ns[1..]), st);
      RunNode(ns[0], st);
      RunForest(ns[1..], RunPieces(NodePieces(ns[0]), st));
      assert (st.out + ExpectedNode(ns[0])) + ExpectedForest(ns[1..])
             == st.out + (ExpectedNode(ns[0]) + ExpectedForest(ns[1..]));
    }
  }

  // ----- Printable pieces -----

  lemma NumeralIsNotBlank(n: u64)
    ensures Trim(Numeral(n, 16)) != [] && Trim(Numeral(n, 10)) != []
  {
    NumeralRoundTrip(n);
  }

  lemma {:induction false} OffsetPiecesPrintable(offsets: seq<u64>)
    ensures AllPrintable(OffsetPieces(offsets))
  {
    hide Numeral, Trim;
    if offsets != [] {
      OffsetPiecesPrintable(offsets[1..]);
      NumeralIsNotBlank(offsets[0]);
      NamesArePrintable();
    }
  }

  lemma NamesArePrintable()
    ensures IsName("Description") && IsName("VariableType") && IsName("Address") && IsName("Length")
            && IsName("Unicode")
    ensures IsName("Offset") && IsName("Offsets") && IsName("CheatEntry") && IsName("CheatEntries")
            && IsName("CheatTable")
  {}

  lemma KindPiecesPrintable(k: Kind)
    requires k.Number? ==> HasName(k.vt)
    requires k.Unsupported? ==> Trim(k.name) != []
    ensures AllPrintable(KindPieces(k))
  {
    hide Numeral, IsName;
    NamesArePrintable();
    NumberNamesAreTrimmed(if k.Number? then k.vt else I8);
    hide Trim;
    if k.Str? && k.length.Some? {
      NumeralIsNotBlank(k.length.value);
    }
  }

  lemma FieldPiecesPrintable(n: Node)
    requires NodePrintable(n)
    ensures AllPrintable(HeadPieces(n)) && AllPrintable(TailPieces(n))
  {
    hide Trim, AddressText, KindPieces, OffsetPieces, MapType, IsName;
    NamesArePrintable();
    KindPiecesPrintable(n.kind);
    OffsetPiecesPrintable(n.offsets);
    StripQuoted(n.desc);
    if n.address.Some? {
      AddressIsTrimmed(n.address.value);
    }
  }

  lemma {:induction false} NodePiecesPrintable(n: Node)
    requires NodePrintable(n) && ForestPrintable(n.children)
    ensures AllPrintable(NodePieces(n))
    decreases n, 0
  {
    hide HeadPieces, TailPieces, ForestPieces, IsName, NodePrintable, ForestPrintable;
    NamesArePrintable();
    FieldPiecesPrintable(n);
    ForestPiecesPrintable(n.children);
  }

  lemma {:induction false} ForestPiecesPrintable(ns: seq<Node>)
    requires ForestPrintable(ns)
    ensures AllPrintable(ForestPieces(ns))
    decreases ns, 1
  {
    hide NodePieces, NodePrintable, IsPrintable;
    if ns != [] {
      NodePiecesPrintable(ns[0]);
      ForestPiecesPrintable(ns[1..]);
    }
  }

  // ----- Round trip -----

  lemma DocumentPrintable(ns: seq<Node>)
    requires ForestPrintable(ns)
    ensures AllPrintable(DocumentPieces(ns))
  {
    hide IsName, ForestPieces;
    NamesArePrintable();
    ForestPiecesPrintable(ns);
  }

  lemma RunDocument(ns: seq<Node>)
    requires ForestPrintable(ns)
    ensures RunPieces(DocumentPieces(ns), INITIAL).out == ExpectedForest(ns)
  {
    hide ToLower, AllTokens, Run, RunPieces, ForestPieces, ExpectedForest;
    LowerCaseNames();
    var a, b, c := [Begin("CheatTable")], [Begin("CheatEntries")], ForestPieces(ns);
    var d, e := [Finish("CheatEntries")], [Finish("CheatTable")];
    assert DocumentPieces(ns) == a + b + c + d + e;
    RunPiecesConcat(a + b + c + d, e, INITIAL);
    RunPiecesConcat(a + b + c, d, INITIAL);
    RunPiecesConcat(a + b, c, INITIAL);
    RunPiecesConcat(a, b, INITIAL);
    RunMark(a[0], INITIAL);
    RunMark(b[0], RunPieces(a, INITIAL));
    var s2 := RunPieces(b, RunPieces(a, INITIAL));
    RunForest(ns, s2);
    RunMark(d[0], RunPieces(c, s2));
    RunMark(e[0], RunPieces(d, RunPieces(c, s2)));
    assert [] + ExpectedForest(ns) == ExpectedForest(ns);
  }

  lemma {:induction false} PiecesHaveTokens(ps: seq<Piece>, name: string)
    requires Begin(name) in ps
    ensures Start(ToLower(name)) in AllTokens(ps)
  {
    hide ToLower;
    if ps[0] != Begin(name) {
      PiecesHaveTokens(ps[1..], name);
    }
  }

  /** The tokens of a printed document are those of its pieces. */
  lemma DocumentIsTokenized(ps: seq<Piece>, start: Gap, at: nat -> Style)
    requires AllPrintable(ps) && IsGap(start) && AllStyles(at)
    ensures Tokens(GapText(start) + PrintAll(ps, 0, at)) == AllTokens(ps)
  {
    hide Tokens, AllPrintable, IsGap, GapText, Print;
    GapHasNoTokens(start, PrintAll(ps, 0, at));
    PrintedIsTokenized(ps, 0, at, "");
    assert PrintAll(ps, 0, at) + "" == PrintAll(ps, 0, at);
    NothingToTokenize();
    assert AllTokens(ps) + [] == AllTokens(ps);
  }

  /** Importing a printed forest, with any attributes, white space, comments and declarations among its tags,
      returns the post-order list of its usable entries, or an error when there is no entry at all. */
  lemma ImportInvertsPrint(ns: seq<Node>, start: Gap, at: nat -> Style)
    requires ForestPrintable(ns) && IsGap(start) && AllStyles(at)
    ensures ns != [] ==> Parse(PrintForest(ns, start, at)) == Some(ExpectedForest(ns))
    ensures ns == [] ==> Parse(PrintForest(ns, start, at)) == None
  {
    hide ToLower, Tokens, Run, PrintAll, ExpectedForest, NodePieces, Step;
    var ps := DocumentPieces(ns);
    DocumentPrintable(ns);
    DocumentIsTokenized(ps, start, at);
    RunDocument(ns);
    LowerCaseNames();
    if ns != [] {
      NodeBegins(ns[0]);
      assert ForestPieces(ns) == NodePieces(ns[0]) + ForestPieces(ns[1..]);
      assert Begin("CheatEntry") in ps;
      PiecesHaveTokens(ps, "CheatEntry");
    } else {
      EmptyDocumentTokens();
    }
  }

  lemma NothingToTokenize()
    ensures Tokens("") == []
  {}

  lemma NodeBegins(n: Node)
    ensures Begin("CheatEntry") in NodePieces(n)
  {
    hide HeadPieces, TailPieces, NestedPieces;
    assert NodePieces(n)[0] == Begin("CheatEntry");
  }

  lemma EmptyDocumentTokens()
    ensures Start("cheatentry") !in AllTokens(DocumentPieces([]))
  {
    hide ToLower;
    LowerCaseNames();
    var ps := DocumentPieces([]);
    assert ps == [Begin("CheatTable"), Begin("CheatEntries"), Finish("CheatEntries"), Finish("CheatTable")];
    assert ps[1..] == [Begin("CheatEntries"), Finish("CheatEntries"), Finish("CheatTable")];
    assert ps[1..][1..] == [Finish("CheatEntries"), Finish("CheatTable")];
    assert ps[1..][1..][1..] == [Finish("CheatTable")];
    assert ps[1..][1..][1..][1..] == [];
    assert AllTokens(ps[1..][1..][1..]) == [End("cheattable")] + [] == [End("cheattable")];
    assert AllTokens(ps[1..][1..]) == [End("cheatentries")] + [End("cheattable")];
  }
}
