/** The base64 codec of the client API: the encoder, and a decoder after section 4 of RFC 4648. */
module Base64 {
  import opened Wrappers
  import opened Bytes

  const UPPER: string := "ABCDEFGHIJKLMNOPQRSTUVWXYZ"
  const LOWER: string := "abcdefghijklmnopqrstuvwxyz"
  const DIGITS: string := "0123456789"
  const ALPHABET: string := UPPER + LOWER + DIGITS + "+/"

  type Sextet = x: int | 0 <= x < 64

  function Symbol(n: Sextet): char { ALPHABET[n] }

  // ----- Encoding -----

  datatype Word = Word(s0: Sextet, s1: Sextet, s2: Sextet, s3: Sextet)

  datatype Triple = Triple(b0: byte, b1: byte, b2: byte)

  /** Three bytes as four groups of six bits. */
  function Sextets(t: Triple): Word {
    Word(t.b0 / 4, t.b0 % 4 * 16 + t.b1 / 16, t.b1 % 16 * 4 + t.b2 / 64, t.b2 % 64)
  }

  /** The chunk, filled up with zero bytes. */
  function Filled(chunk: seq<byte>): Triple
    requires 1 <= |chunk| <= 3
  {
    Triple(chunk[0], if |chunk| > 1 then chunk[1] else 0, if |chunk| > 2 then chunk[2] else 0)
  }

  /** Four characters for one to three bytes. */
  function EncodeQuantum(chunk: seq<byte>): (s: string)
    requires 1 <= |chunk| <= 3
    ensures |s| == 4
  {
    var w := Sextets(Filled(chunk));
    [Symbol(w.s0), Symbol(w.s1), if |chunk| > 1 then Symbol(w.s2) else '=', if |chunk| > 2 then Symbol(w.s3) else '=']
  }

  function Encode(input: seq<byte>): string {
    if input == [] then ""
    else if |input| <= 3 then EncodeQuantum(input)
    else EncodeQuantum(input[..3]) + Encode(input[3..])
  }

  method EncodeText(input: seq<byte>) returns (out: string)
    ensures out == Encode(input)
  {
    EncodeNothing();
    hide Symbol, Sextets, Encode;
    out := "";
    var i := 0;
    while i < |input|
      invariant i <= |input| && out + Encode(input[i..]) == Encode(input)
    {
      var chunk := if i + 3 <= |input| then input[i..i + 3] else input[i..];
      var b0: int := chunk[0];
      var b1: int := if |chunk| > 1 then chunk[1] else 0;
      var b2: int := if |chunk| > 2 then chunk[2] else 0;
      var n := b0 * 0x1_0000 + b1 * 0x100 + b2;
      ghost var before := out;
      ghost var t := Filled(chunk);
      assert t == Triple(b0, b1, b2);
      SextetsOfWord(t, n);
      out := out + [Symbol(n / 0x4_0000 % 64)];
      out := out + [Symbol(n / 0x1000 % 64)];
      out := out + [if |chunk| > 1 then Symbol(n / 0x40 % 64) else '='];
      out := out + [if |chunk| > 2 then Symbol(n % 64) else '='];
      assert out == before + EncodeQuantum(chunk);
      EncodeSplits(input[i..], chunk, input[i + |chunk|..]);
      assert out + Encode(input[i + |chunk|..]) == before + Encode(input[i..]);
      i := i + |chunk|;
    }
    assert input[i..] == [];
  }

  lemma EncodeNothing()
    ensures Encode([]) == ""
  {}

  lemma SextetsOfWord(t: Triple, n: nat)
    requires n == t.b0 as int * 0x1_0000 + t.b1 as int * 0x100 + t.b2
    ensures Sextets(t) == Word(n / 0x4_0000 % 64, n / 0x1000 % 64, n / 0x40 % 64, n % 64)
  {
    var w := Sextets(t);
    assert n == w.s0 as int * 0x4_0000 + w.s1 as int * 0x1000 + w.s2 as int * 0x40 + w.s3;
    Unpack(w.s0, w.s1, w.s2, w.s3, n);
  }

  lemma Unpack(s0: Sextet, s1: Sextet, s2: Sextet, s3: Sextet, n: nat)
    requires n == s0 as int * 0x4_0000 + s1 as int * 0x1000 + s2 as int * 0x40 + s3
    ensures n / 0x4_0000 % 64 == s0 && n / 0x1000 % 64 == s1 && n / 0x40 % 64 == s2 && n % 64 == s3
  {
    assert n / 0x40 == s0 * 0x1000 + s1 * 0x40 + s2;
    assert n / 0x1000 == s0 * 0x40 + s1;
    assert n / 0x4_0000 == s0;
  }

  lemma EncodeSplits(s: seq<byte>, chunk: seq<byte>, rest: seq<byte>)
    requires s == chunk + rest && 1 <= |chunk| <= 3 && (rest != [] ==> |chunk| == 3)
    ensures Encode(s) == EncodeQuantum(chunk) + Encode(rest)
  {
    if rest == [] {
      assert s == chunk;
    } else {
      assert s[..3] == chunk && s[3..] == rest;
    }
  }

  // ----- Decoding -----

  function SextetOf(c: char): Option<Sextet> {
    if 'A' <= c <= 'Z' then Some(c as int - 'A' as int)
    else if 'a' <= c <= 'z' then Some(c as int - 'a' as int + 26)
    else if '0' <= c <= '9' then Some(c as int - '0' as int + 52)
    else if c == '+' then Some(62)
    else if c == '/' then Some(63)
    else None
  }

  /** Four groups of six bits as three bytes. */
  function Octets(w: Word): Triple {
    Triple(w.s0 * 4 + w.s1 / 16, w.s1 % 16 * 16 + w.s2 / 4, w.s2 % 4 * 64 + w.s3)
  }

  /** The bytes of one quantum; padding stands at its end, and the bits it leaves over must be zero. */
  function DecodeQuantum(q: string): Option<seq<byte>>
    requires |q| == 4
  {
    var a :- SextetOf(q[0]);
    var b :- SextetOf(q[1]);
    if q[2] == '=' && q[3] == '=' then
      var t := Octets(Word(a, b, 0, 0));
      if t.b1 == 0 then Some([t.b0]) else None
    else
      var c :- SextetOf(q[2]);
      if q[3] == '=' then
        var t := Octets(Word(a, b, c, 0));
        if t.b2 == 0 then Some([t.b0, t.b1]) else None
      else
        var d :- SextetOf(q[3]);
        var t := Octets(Word(a, b, c, d));
        Some([t.b0, t.b1, t.b2])
  }

  /** Section 4 of RFC 4648: quanta of four characters, of which only the last may be padded. */
  function Decode(text: string): Option<seq<byte>> {
    if text == "" then Some([])
    else if |text| < 4 then None
    else
      var first :- DecodeQuantum(text[..4]);
      if |text| > 4 && |first| < 3 then None
      else
        var rest :- Decode(text[4..]);
        Some(first + rest)
  }

  // ----- Round trip -----

  lemma UpperIsConsecutive(n: nat)
    requires n < 26
    ensures UPPER[n] == 'A' + n as char
  {}

  lemma LowerIsConsecutive(n: nat)
    requires n < 26
    ensures LOWER[n] == 'a' + n as char
  {}

  lemma SymbolRanges(n: Sextet)
    ensures Symbol(n) == if n < 26 then 'A' + n as char else if n < 52 then 'a' + (n - 26) as char
                         else if n < 62 then '0' + (n - 52) as char else if n == 62 then '+' else '/'
  {
    if n < 26 {
      UpperIsConsecutive(n);
    } else if n < 52 {
      LowerIsConsecutive(n - 26);
    }
  }

  lemma SymbolRoundTrip(n: Sextet)
    ensures SextetOf(Symbol(n)) == Some(n) && Symbol(n) != '='
  {
    SymbolRanges(n);
    hide Symbol;
  }

  lemma SextetRoundTrip(c: char)
    ensures SextetOf(c).Some? ==> Symbol(SextetOf(c).value) == c && c != '='
  {
    if SextetOf(c).Some? {
      SymbolRanges(SextetOf(c).value);
    }
    hide Symbol;
  }

  lemma OctetsOfSextets(t: Triple)
    ensures Octets(Sextets(t)) == t
    ensures t.b2 == 0 ==> Sextets(t).s3 == 0
    ensures t.b1 == t.b2 == 0 ==> Sextets(t).s2 == 0
  {}

  lemma SextetsOfOctets(w: Word)
    ensures Sextets(Octets(w)) == w
    ensures w.s2 == w.s3 == 0 ==> Octets(w).b2 == 0
  {
    var t := Octets(w);
    assert t.b0 / 4 == w.s0 && t.b0 % 4 == w.s1 / 16;
    assert t.b1 / 16 == w.s1 % 16 && t.b1 % 16 == w.s2 / 4;
    assert t.b2 / 64 == w.s2 % 4 && t.b2 % 64 == w.s3;
  }

  lemma SymbolsRoundTrip(w: Word)
    ensures SextetOf(Symbol(w.s0)) == Some(w.s0) && SextetOf(Symbol(w.s1)) == Some(w.s1)
    ensures SextetOf(Symbol(w.s2)) == Some(w.s2) && SextetOf(Symbol(w.s3)) == Some(w.s3)
    ensures '=' !in {Symbol(w.s0), Symbol(w.s1), Symbol(w.s2), Symbol(w.s3)}
  {
    SymbolRoundTrip(w.s0);
    SymbolRoundTrip(w.s1);
    SymbolRoundTrip(w.s2);
    SymbolRoundTrip(w.s3);
    hide Symbol, SextetOf;
  }

  lemma QuantumRoundTrip(chunk: seq<byte>)
    requires 1 <= |chunk| <= 3
    ensures DecodeQuantum(EncodeQuantum(chunk)) == Some(chunk)
  {
    var t := Filled(chunk);
    SymbolsRoundTrip(Sextets(t));
    OctetsOfSextets(t);
    assert SextetOf('=') == None;
    hide Symbol, SextetOf, Sextets, Octets;
    var w, q := Sextets(t), EncodeQuantum(chunk);
    assert q[0] == Symbol(w.s0) && q[1] == Symbol(w.s1);
    assert q[2] == if |chunk| > 1 then Symbol(w.s2) else '=';
    assert q[3] == if |chunk| > 2 then Symbol(w.s3) else '=';
    hide EncodeQuantum;
    if |chunk| == 1 {
      assert chunk == [t.b0];
    } else if |chunk| == 2 {
      assert chunk == [t.b0, t.b1];
    } else {
      assert chunk == [t.b0, t.b1, t.b2];
    }
  }

  /** Every byte string is recovered from its encoding. */
  lemma {:induction false} DecodeInvertsEncode(input: seq<byte>)
    ensures Decode(Encode(input)) == Some(input)
    decreases |input|
  {
    hide EncodeQuantum, DecodeQuantum;
    if input != [] {
      var chunk := if |input| <= 3 then input else input[..3];
      var rest := input[|chunk|..];
      EncodeSplits(input, chunk, rest);
      QuantumRoundTrip(chunk);
      DecodeInvertsEncode(rest);
      var text := Encode(input);
      assert text[..4] == EncodeQuantum(chunk) && text[4..] == Encode(rest);
      assert input == chunk + rest;
    }
  }

  /** The decoder accepts no other text: a text that decodes is the encoding of what it decodes to. */
  lemma {:induction false} EncodeInvertsDecode(text: string)
    requires Decode(text).Some?
    ensures Encode(Decode(text).value) == text
    decreases |text|
  {
    hide EncodeQuantum, DecodeQuantum;
    if text != "" {
      var first := DecodeQuantum(text[..4]).value;
      var rest := Decode(text[4..]).value;
      QuantumInverts(text[..4]);
      EncodeInvertsDecode(text[4..]);
      if |text| == 4 {
        assert text[4..] == "";
      }
      EncodeSplits(first + rest, first, rest);
      assert text == text[..4] + text[4..];
    }
  }

  lemma QuantumInverts(q: string)
    requires |q| == 4 && DecodeQuantum(q).Some?
    ensures 1 <= |DecodeQuantum(q).value| <= 3 && EncodeQuantum(DecodeQuantum(q).value) == q
  {
    var chunk := DecodeQuantum(q).value;
    var w := Word(SextetOf(q[0]).value, SextetOf(q[1]).value, SextetOf(q[2]).GetOr(0), SextetOf(q[3]).GetOr(0));
    assert SextetOf('=') == None;
    SextetRoundTrip(q[0]);
    SextetRoundTrip(q[1]);
    SextetRoundTrip(q[2]);
    SextetRoundTrip(q[3]);
    SextetsOfOctets(w);
    FilledByDecoding(q, w);
    hide Symbol, SextetOf, Sextets, Octets, Filled, DecodeQuantum;
  }

  lemma FilledByDecoding(q: string, w: Word)
    requires |q| == 4 && DecodeQuantum(q).Some?
    requires w == Word(SextetOf(q[0]).value, SextetOf(q[1]).value, SextetOf(q[2]).GetOr(0), SextetOf(q[3]).GetOr(0))
    ensures 1 <= |DecodeQuantum(q).value| <= 3 && Filled(DecodeQuantum(q).value) == Octets(w)
    ensures |DecodeQuantum(q).value| == if q[3] != '=' then 3 else if q[2] != '=' then 2 else 1
    ensures SextetOf(q[0]).Some? && SextetOf(q[1]).Some?
    ensures (|DecodeQuantum(q).value| >= 2 ==> SextetOf(q[2]).Some?)
            && (|DecodeQuantum(q).value| == 3 ==> SextetOf(q[3]).Some?)
  {
    assert SextetOf('=') == None;
    SextetsOfOctets(w);
    hide SextetOf, Octets;
  }

  // ----- Length and padding -----

  function Padding(n: nat): nat { (3 - n % 3) % 3 }

  /** Four characters for every three bytes begun; padding only at the very end, and only as much as the last
      quantum lacks. */
  lemma {:induction false} LengthAndPadding(input: seq<byte>)
    ensures |Encode(input)| == 4 * ((|input| + 2) / 3)
    ensures PaddedAtEnd(Encode(input), |input|)
    decreases |input|
  {
    hide EncodeQuantum;
    if input != [] {
      var chunk := if |input| <= 3 then input else input[..3];
      var rest := input[|chunk|..];
      EncodeSplits(input, chunk, rest);
      QuantumPadding(chunk);
      LengthAndPadding(rest);
      assert |input| == |chunk| + |rest| && (rest != [] ==> |chunk| == 3);
      hide Encode;
      JoinedPadding(EncodeQuantum(chunk), Encode(rest), |chunk|, |rest|);
    }
  }

  predicate PaddedAtEnd(s: string, n: nat) { forall i :: 0 <= i < |s| ==> (s[i] == '=' <==> i >= |s| - Padding(n)) }

  /** A quantum of n bytes before the encoding of more bytes; only a full quantum has any after it. */
  lemma JoinedPadding(q: string, t: string, n: nat, more: nat)
    requires 1 <= n <= 3 && |q| == 4 && (more > 0 ==> n == 3) && |t| == 4 * ((more + 2) / 3)
    requires (forall i :: 0 <= i < 4 ==> (q[i] == '=' <==> i > n)) && PaddedAtEnd(t, more)
    ensures |q + t| == 4 * ((n + more + 2) / 3) && PaddedAtEnd(q + t, n + more)
  {
    var s := q + t;
    forall i | 0 <= i < |s| ensures s[i] == '=' <==> i >= |s| - Padding(n + more) {
      assert s[i] == if i < 4 then q[i] else t[i - 4];
    }
  }

  lemma QuantumPadding(chunk: seq<byte>)
    requires 1 <= |chunk| <= 3
    ensures var q := EncodeQuantum(chunk);
            forall i :: 0 <= i < 4 ==> (q[i] == '=' <==> i > |chunk|)
  {
    SymbolsRoundTrip(Sextets(Filled(chunk)));
    hide Symbol, Sextets;
  }
}
