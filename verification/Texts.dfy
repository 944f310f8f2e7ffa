/** Trimming, case and numbers in text. */
module Texts {
  import opened Wrappers
  import opened Bytes

  /** The Unicode property White_Space. */
  predicate IsSpace(c: char) {
    || '\t' <= c <= '\r' || c == ' ' || c == '\U{85}' || c == '\U{A0}' || c == '\U{1680}'
      || '\U{2000}' <= c <= '\U{200A}'
    || c == '\U{2028}' || c == '\U{2029}' || c == '\U{202F}' || c == '\U{205F}' || c == '\U{3000}'
  }

  function TrimStart(s: string): string {
    if s != [] && IsSpace(s[0]) then TrimStart(s[1..]) else s
  }

  function TrimEnd(s: string): string {
    if s != [] && IsSpace(s[|s| - 1]) then TrimEnd(s[..|s| - 1]) else s
  }

  function Trim(s: string): string { TrimEnd(TrimStart(s)) }

  predicate IsTrimmed(s: string) { s == [] || (!IsSpace(s[0]) && !IsSpace(s[|s| - 1])) }

  lemma TrimOfTrimmed(s: string)
    requires IsTrimmed(s)
    ensures Trim(s) == s
  {}

  predicate IsBlank(s: string) { forall i :: 0 <= i < |s| ==> IsSpace(s[i]) }

  lemma {:induction false} TrimEndIsTrimmed(s: string)
    requires s == [] || !IsSpace(s[0])
    ensures IsTrimmed(TrimEnd(s)) && (TrimEnd(s) == [] || TrimEnd(s)[0] == s[0])
  {
    if s != [] && IsSpace(s[|s| - 1]) {
      TrimEndIsTrimmed(s[..|s| - 1]);
    }
  }

  lemma {:induction false} TrimStartIsTrimmed(s: string)
    ensures TrimStart(s) == [] || !IsSpace(TrimStart(s)[0])
  {
    if s != [] && IsSpace(s[0]) {
      TrimStartIsTrimmed(s[1..]);
    }
  }

  lemma TrimTwice(s: string)
    ensures Trim(Trim(s)) == Trim(s)
  {
    TrimStartIsTrimmed(s);
    TrimEndIsTrimmed(TrimStart(s));
    TrimOfTrimmed(Trim(s));
  }

  lemma {:induction false} TrimStartDrops(pad: string, s: string)
    requires IsBlank(pad)
    ensures TrimStart(pad + s) == TrimStart(s)
  {
    hide IsSpace;
    if pad == [] {
      assert pad + s == s;
    } else {
      assert (pad + s)[1..] == pad[1..] + s;
      TrimStartDrops(pad[1..], s);
    }
  }

  lemma {:induction false} TrimEndDrops(s: string, pad: string)
    requires IsBlank(pad)
    ensures TrimEnd(s + pad) == TrimEnd(s)
  {
    hide IsSpace;
    if pad == [] {
      assert s + pad == s;
    } else {
      assert (s + pad)[..|s + pad| - 1] == s + pad[..|pad| - 1];
      TrimEndDrops(s, pad[..|pad| - 1]);
    }
  }

  /** Trimming takes away exactly the white space around a trimmed text. */
  lemma TrimPadded(before: string, s: string, after: string)
    requires IsBlank(before) && IsBlank(after) && IsTrimmed(s) && s != []
    ensures Trim(before + s + after) == s
  {
    hide IsSpace;
    TrimStartDrops(before, s + after);
    assert before + s + after == before + (s + after);
    assert (s + after)[0] == s[0];
    TrimEndDrops(s, after);
    TrimOfTrimmed(s);
  }

  /** ASCII lower case. */
  function ToLower(s: string): string {
    seq(|s|, i requires 0 <= i < |s| => if 'A' <= s[i] <= 'Z' then s[i] - 'A' + 'a' else s[i])
  }
}
