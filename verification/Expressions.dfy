/** Numbers and address expressions of assembler scripts: `symbol`, `number`, `a+b`, `a-b`. */
module Expressions {
  import opened Wrappers
  import opened Bytes
  import opened Texts
  import opened Numbers
  import X86Encoder

  type Symbols = map<string, u64>
  type Value = Result<u64, X86Encoder.AsmError>

  predicate HasHexPrefix(s: string) { |s| >= 2 && s[0] == '0' && (s[1] == 'x' || s[1] == 'X') }

  /** `#N` is decimal; `0xN`, `$N` and a bare `N` are hexadecimal. */
  function ParseNum(text: string): Option<u64> {
    var t := Trim(text);
    if t != [] && t[0] == '#' then FromRadix(t[1..], 10)
    else if HasHexPrefix(t) then FromRadix(t[2..], 16)
    else if t != [] && t[0] == '$' then FromRadix(t[1..], 16)
    else FromRadix(t, 16)
  }

  /** A symbol wins over a number: labels such as `face` are also hexadecimal numbers. */
  function ParseOperand(symbols: Symbols, text: string): Value {
    var t := Trim(text);
    if t in symbols then Ok(symbols[t])
    else match ParseNum(t)
      case Some(n) => Ok(n)
      case None => Err(X86Encoder.UnknownSymbol(t))
  }

  predicate IsSign(c: char) { c == '+' || c == '-' }

  /** Position of the first sign at or after i. */
  function FirstSign(s: string, i: nat): (r: Option<nat>)
    requires i <= |s|
    ensures r.Some? ==> i <= r.value < |s| && IsSign(s[r.value]) && (forall k :: i <= k < r.value ==> !IsSign(s[k]))
    ensures r.None? ==> forall k :: i <= k < |s| ==> !IsSign(s[k])
    decreases |s| - i
  {
    if i == |s| then None else if IsSign(s[i]) then Some(i) else FirstSign(s, i + 1)
  }

  /** Splits at the first sign that is not the first character. */
  function ParseExpr(symbols: Symbols, text: string): Value {
    var s := Trim(text);
    match (if s == [] then None else FirstSign(s, 1))
    case None => ParseOperand(symbols, s)
    case Some(i) =>
      var a :- ParseOperand(symbols, s[..i]);
      var b :- ParseOperand(symbols, s[i + 1..]);
      Ok(AsU64(if s[i] == '+' then a + b else a - b))
  }

  /** A name that can be the target of a jump: trimmed, not empty, no sign after its first character. */
  predicate IsPlainName(name: string) {
    IsTrimmed(name) && name != [] && forall k :: 1 <= k < |name| ==> !IsSign(name[k])
  }

  /** A plain name evaluates to its symbol, even when it also reads as a number. */
  lemma PlainNameEvaluates(symbols: Symbols, name: string)
    requires IsPlainName(name) && name in symbols
    ensures ParseExpr(symbols, name) == Ok(symbols[name])
  {
    TrimOfTrimmed(name);
  }

  /** The conventions for numbers: `#` decimal, `0x`, `0X` and `$` hexadecimal, and hexadecimal without any prefix. */
  lemma NumberConventions(s: string)
    requires s != [] && !IsSpace(s[|s| - 1])
    ensures ParseNum("#" + s) == FromRadix(s, 10) && ParseNum("$" + s) == FromRadix(s, 16)
    ensures ParseNum("0x" + s) == FromRadix(s, 16) && ParseNum("0X" + s) == FromRadix(s, 16)
    ensures !IsSpace(s[0]) && s[0] != '#' && s[0] != '$' && !(|s| >= 2 && s[..2] in {"0x", "0X"}) ==>
              ParseNum(s) == FromRadix(s, 16)
  {
    PrefixedNumber("#", s);
    PrefixedNumber("$", s);
    PrefixedNumber("0x", s);
    PrefixedNumber("0X", s);
    if !IsSpace(s[0]) {
      TrimOfTrimmed(s);
    }
    if HasHexPrefix(s) {
      assert s[..2] == [s[0], s[1]];
    }
    hide FromRadix, Trim, IsSpace;
  }

  lemma PrefixedNumber(prefix: string, s: string)
    requires prefix != [] && !IsSpace(prefix[0]) && s != [] && !IsSpace(s[|s| - 1])
    ensures Trim(prefix + s) == prefix + s && (prefix + s)[|prefix|..] == s && (prefix + s)[0] == prefix[0]
    ensures |prefix| >= 2 ==> (prefix + s)[1] == prefix[1]
  {
    hide IsSpace;
    assert (prefix + s)[|prefix + s| - 1] == s[|s| - 1];
    TrimOfTrimmed(prefix + s);
  }

  /** A text that is no symbol evaluates to the number it reads as, and to an error when it reads as none. */
  lemma UnboundTextEvaluates(symbols: Symbols, text: string)
    requires IsPlainName(text) && text !in symbols
    ensures ParseExpr(symbols, text)
            == match ParseNum(text) case Some(n) => Ok(n) case None => Err(X86Encoder.UnknownSymbol(text))
  {
    TrimOfTrimmed(text);
    hide ParseNum;
  }

  /** White space around an operand is ignored. */
  lemma OperandIgnoresSpace(symbols: Symbols, before: string, s: string, after: string)
    requires IsBlank(before) && IsBlank(after) && IsTrimmed(s) && s != []
    ensures ParseOperand(symbols, before + s + after) == ParseOperand(symbols, s)
  {
    TrimPadded(before, s, after);
    TrimOfTrimmed(s);
    hide ParseNum, Trim;
  }

  /** The sum or difference of two values modulo 2^64, or the first error. */
  function Combined(x: Value, sign: char, y: Value): Value {
    var a :- x;
    var b :- y;
    Ok(if sign == '+' then (a + b) % TWO64 else (a - b) % TWO64)
  }

  /** `a+b` and `a-b`, with any white space around operands and sign, evaluate both operands, wrapping around
      at 2^64; an operand that does not evaluate is the error. */
  lemma SumEvaluates(symbols: Symbols, a: string, b: string, sign: char, w: string, x: string, y: string, z: string)
    requires IsPlainName(a) && IsTrimmed(b) && b != [] && IsSign(sign)
    requires IsBlank(w) && IsBlank(x) && IsBlank(y) && IsBlank(z)
    ensures ParseExpr(symbols, w + (a + x + [sign] + y + b) + z)
            == Combined(ParseOperand(symbols, a), sign, ParseOperand(symbols, b))
  {
    hide ParseExpr, ParseOperand, Trim, IsSpace;
    var s := a + x + [sign] + y + b;
    SpacesAreNoSigns(x);
    assert s[0] == a[0] && s[|s| - 1] == b[|b| - 1];
    TrimPadded(w, s, z);
    assert s == (a + x) + [sign] + (y + b);
    SplitSumEvaluates(symbols, w + s + z, a + x, sign, y + b);
    OperandIgnoresSpace(symbols, [], a, x);
    OperandIgnoresSpace(symbols, y, b, []);
    assert [] + a + x == a + x && y + b + [] == y + b;
  }

  /** A text splits at its first sign that is not its first character. */
  lemma SplitSumEvaluates(symbols: Symbols, text: string, left: string, sign: char, right: string)
    requires Trim(text) == left + [sign] + right
    requires left != [] && IsSign(sign) && forall k :: 1 <= k < |left| ==> !IsSign(left[k])
    ensures ParseExpr(symbols, text) == Combined(ParseOperand(symbols, left), sign, ParseOperand(symbols, right))
  {
    hide ParseOperand, Trim, FirstSign;
    var s := left + [sign] + right;
    assert forall k :: 1 <= k < |left| ==> s[k] == left[k];
    assert s[..|left|] == left && s[|left| + 1..] == right && s[|left|] == sign;
    assert FirstSign(s, 1) == Some(|left|);
  }

  lemma SpacesAreNoSigns(x: string)
    requires IsBlank(x)
    ensures forall k :: 0 <= k < |x| ==> !IsSign(x[k])
  {}
}
