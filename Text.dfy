/**
 * The C library text routines the parsers rely on: `strtok` (a tokenizer
 * with a cursor and a delimiter set per call), `strtoul` of a decimal id
 * narrowed to the 32-bit `Id`, and ASCII `tolower`.
 */
module Text {
  import opened Exceptions

  const IdLimit: int := 0x1_0000_0000           // 2^32: `Id` is `uint32_t`
  const ULongLimit: int := 0x1_0000_0000_0000_0000  // 2^64: `unsigned long`

  // ---------------------------------------------------------------------------
  // strtok

  /** The length of the leading run of delimiters of `s`. */
  function SkipDelims(s: string, delims: set<char>): (n: nat)
    ensures n <= |s|
    ensures forall k :: 0 <= k < n ==> s[k] in delims
    ensures n < |s| ==> s[n] !in delims
  {
    if s == [] || s[0] !in delims then 0 else 1 + SkipDelims(s[1..], delims)
  }

  /** The length of the leading run of non-delimiters of `s`. */
  function TokenLength(s: string, delims: set<char>): (n: nat)
    ensures n <= |s|
    ensures forall k :: 0 <= k < n ==> s[k] !in delims
    ensures n < |s| ==> s[n] in delims
  {
    if s == [] || s[0] in delims then 0 else 1 + TokenLength(s[1..], delims)
  }

  /**
   * One `strtok` call on the remaining text `s`: leading delimiters are
   * skipped; no token remains when only delimiters do; otherwise the token is
   * the following run of non-delimiters, and the delimiter that ends it is
   * overwritten and consumed, so the next call starts after it.
   */
  function StrTok(s: string, delims: set<char>): (r: Option<(string, string)>)
    ensures r.None? <==> forall k :: 0 <= k < |s| ==> s[k] in delims
    ensures r.Some? ==> |r.value.0| > 0 && |r.value.1| < |s|
    ensures r.Some? ==> forall k :: 0 <= k < |r.value.0| ==> r.value.0[k] !in delims
    ensures r.Some? ==>
      var a := SkipDelims(s, delims);
      a + |r.value.0| <= |s| && s[a..a + |r.value.0|] == r.value.0
    ensures r.Some? ==> r.value.1 == s[|s| - |r.value.1|..]
  {
    var a := SkipDelims(s, delims);
    if a == |s| then None
    else
      var t := s[a..];
      var n := TokenLength(t, delims);
      var rest := if n < |t| then t[n + 1..] else [];
      assert s[a..a + n] == t[..n];
      assert rest == s[|s| - |rest|..];
      Some((t[..n], rest))
  }

  /** A non-empty run of non-delimiters. */
  predicate IsToken(w: string, delims: set<char>)
  {
    |w| > 0 && forall i :: 0 <= i < |w| ==> w[i] !in delims
  }

  /** All tokens of `s` under one delimiter set: `strtok` called until it returns no token. */
  function Tokens(s: string, delims: set<char>): (ts: seq<string>)
    ensures forall k :: 0 <= k < |ts| ==> IsToken(ts[k], delims)
    ensures ts == [] <==> forall k :: 0 <= k < |s| ==> s[k] in delims
    decreases |s|
  {
    var t := StrTok(s, delims);
    if t.None? then []
    else
      var tok, rest := t.value.0, Tokens(t.value.1, delims);
      assert IsToken(tok, delims);
      assert forall k :: 0 < k <= |rest| ==> ([tok] + rest)[k] == rest[k - 1];
      [tok] + rest
  }

  /**
   * Leading delimiters `ds`, then a word `w`, then either the end of the text
   * or a delimiter and the text `tail`: `strtok` returns `w`, and the text
   * after the delimiter remains.
   */
  lemma StrTokWord(ds: string, w: string, tail: string, delims: set<char>)
    requires forall k :: 0 <= k < |ds| ==> ds[k] in delims
    requires IsToken(w, delims)
    requires tail == [] || tail[0] in delims
    ensures StrTok(ds + w + tail, delims) == Some((w, if tail == [] then [] else tail[1..]))
  {
    var s := ds + w + tail;
    SkipDelimsPrefix(ds, w + tail, delims);
    assert s == ds + (w + tail);
    assert s[|ds|..] == w + tail;
    if tail == [] {
      assert w + tail == w;
      TokenLengthAll(w, delims);
    } else {
      TokenLengthOfWord(w, tail, delims);
      assert (w + tail)[|w| + 1..] == tail[1..];
    }
    assert (w + tail)[..|w|] == w;
  }

  lemma {:induction false} SkipDelimsPrefix(ds: string, t: string, delims: set<char>)
    requires forall k :: 0 <= k < |ds| ==> ds[k] in delims
    requires t != [] && t[0] !in delims
    ensures SkipDelims(ds + t, delims) == |ds|
    decreases |ds|
  {
    if ds != [] {
      assert (ds + t)[1..] == ds[1..] + t;
      SkipDelimsPrefix(ds[1..], t, delims);
    }
  }

  lemma {:induction false} TokenLengthAll(w: string, delims: set<char>)
    requires forall k :: 0 <= k < |w| ==> w[k] !in delims
    ensures TokenLength(w, delims) == |w|
    decreases |w|
  {
    if w != [] {
      TokenLengthAll(w[1..], delims);
    }
  }

  /** A text made of one word and delimiters around it is that single token. */
  lemma SingleWord(w: string, d: char, delims: set<char>)
    requires |w| > 0 && d in delims
    requires forall k :: 0 <= k < |w| ==> w[k] !in delims
    ensures Tokens([d] + w + [d], delims) == [w]
  {
    var s := [d] + w + [d];
    assert SkipDelims(s, delims) == 1;
    assert s[1..] == w + [d];
    TokenLengthOfWord(w, [d], delims);
    assert (w + [d])[..|w|] == w;
    assert (w + [d])[|w| + 1..] == [];
  }

  lemma {:induction false} TokenLengthOfWord(w: string, tail: string, delims: set<char>)
    requires forall k :: 0 <= k < |w| ==> w[k] !in delims
    requires tail != [] && tail[0] in delims
    ensures TokenLength(w + tail, delims) == |w|
    decreases |w|
  {
    if w != [] {
      assert (w + tail)[1..] == w[1..] + tail;
      TokenLengthOfWord(w[1..], tail, delims);
    }
  }

  // ---------------------------------------------------------------------------
  // strtoul

  predicate IsDigit(c: char)
  {
    '0' <= c <= '9'
  }

  /** `isspace` in the C locale. */
  predicate IsSpace(c: char)
  {
    c == ' ' || c == '\t' || c == '\n' || c == '\r' || c == '\U{000B}' || c == '\U{000C}'
  }

  /** The number of leading decimal digits of `s`. */
  function DigitsLength(s: string): (n: nat)
    ensures n <= |s|
    ensures forall k :: 0 <= k < n ==> IsDigit(s[k])
    ensures n < |s| ==> !IsDigit(s[n])
  {
    if s == [] || !IsDigit(s[0]) then 0 else 1 + DigitsLength(s[1..])
  }

  /** The value of a string of decimal digits, most significant first. */
  function DecimalValue(s: string): (v: nat)
    requires forall k :: 0 <= k < |s| ==> IsDigit(s[k])
  {
    if s == [] then 0
    else
      var d := s[|s| - 1];
      assert IsDigit(d);
      10 * DecimalValue(s[..|s| - 1]) + (d as int - '0' as int)
  }

  /** The decimal digits of `n` without leading zeros ("0" for zero). */
  function DecimalString(n: nat): (s: string)
    ensures |s| > 0 && forall k :: 0 <= k < |s| ==> IsDigit(s[k])
    ensures DecimalValue(s) == n
  {
    var last := [(('0' as int) + n % 10) as char];
    if n < 10 then last
    else
      var front := DecimalString(n / 10);
      assert (front + last)[..|front + last| - 1] == front;
      front + last
  }

  /**
   * `strtoul(tok, nullptr, 10)`: optional leading white space and sign, then
   * the decimal digits; no digits give 0, a magnitude above `ULONG_MAX`
   * saturates to `ULONG_MAX`, and a minus sign negates modulo 2^64.
   */
  function StrToUL(tok: string): (v: nat)
    ensures v < ULongLimit
  {
    if tok != [] && IsSpace(tok[0]) then StrToUL(tok[1..]) else SignedValue(tok)
  }

  /** `strtoul` past the leading white space: the optional sign and the digits. */
  function SignedValue(tok: string): (v: nat)
    ensures v < ULongLimit
  {
      var neg := tok != [] && tok[0] == '-';
      var body := if tok != [] && (tok[0] == '-' || tok[0] == '+') then tok[1..] else tok;
      var n := DigitsLength(body);
      var mag := DecimalValue(body[..n]);
      if mag >= ULongLimit then ULongLimit - 1
      else if neg then (ULongLimit - mag) % ULongLimit
      else mag
  }

  /** `Id nid = strtoul(...)`: the conversion to the 32-bit `Id` keeps the low 32 bits. */
  function ParseId(tok: string): (id: nat)
    ensures id < IdLimit
    ensures StrToUL(tok) < IdLimit ==> id == StrToUL(tok)
  {
    StrToUL(tok) % IdLimit
  }

  /** Printing an id in decimal and parsing it back gives the id. */
  lemma ParseIdRoundTrip(id: nat)
    requires id < IdLimit
    ensures ParseId(DecimalString(id)) == id
  {
    var s := DecimalString(id);
    assert !IsSpace(s[0]) && s[0] != '-' && s[0] != '+';
    DigitsOnly(s);
    assert s[..|s|] == s;
  }

  /** Leading white space is skipped. */
  lemma StrToULSkipsSpace(c: char, tok: string)
    requires IsSpace(c)
    ensures StrToUL([c] + tok) == StrToUL(tok)
  {
    assert ([c] + tok)[1..] == tok;
  }

  /** The unsigned value of digits `s` followed by anything but a digit, saturated at 2^64 - 1. */
  function Saturated(s: string): (v: nat)
    requires forall k :: 0 <= k < |s| ==> IsDigit(s[k])
    ensures v < ULongLimit
  {
    if DecimalValue(s) >= ULongLimit then ULongLimit - 1 else DecimalValue(s)
  }

  /** Digits are read up to the first non-digit; a magnitude of 2^64 or more saturates. */
  lemma StrToULDigits(s: string, rest: string)
    requires |s| > 0 && forall k :: 0 <= k < |s| ==> IsDigit(s[k])
    requires rest == [] || !IsDigit(rest[0])
    ensures StrToUL(s + rest) == Saturated(s)
  {
    var none: string := [];
    assert none + s + rest == s + rest;
    SignedValueOf(none, s, rest);
  }

  /** A plus sign changes nothing. */
  lemma StrToULPlus(s: string, rest: string)
    requires |s| > 0 && forall k :: 0 <= k < |s| ==> IsDigit(s[k])
    requires rest == [] || !IsDigit(rest[0])
    ensures StrToUL("+" + s + rest) == Saturated(s)
  {
    SignedValueOf("+", s, rest);
  }

  /**
   * A minus sign gives 2^64 minus the magnitude (0 for a zero magnitude),
   * and a magnitude of 2^64 or more still saturates to 2^64 - 1.
   */
  lemma StrToULMinus(s: string, rest: string)
    requires |s| > 0 && forall k :: 0 <= k < |s| ==> IsDigit(s[k])
    requires rest == [] || !IsDigit(rest[0])
    ensures var v := DecimalValue(s);
      StrToUL("-" + s + rest) == if v >= ULongLimit then ULongLimit - 1 else if v == 0 then 0 else ULongLimit - v
  {
    SignedValueOf("-", s, rest);
    var v := DecimalValue(s);
    if v < ULongLimit {
      NegateModulo(v);
    }
  }

  /** `strtoul` on an optional sign, digits, and anything but a digit after them. */
  lemma SignedValueOf(sign: string, s: string, rest: string)
    requires sign == [] || sign == ['+'] || sign == ['-']
    requires |s| > 0 && forall k :: 0 <= k < |s| ==> IsDigit(s[k])
    requires rest == [] || !IsDigit(rest[0])
    ensures var v := DecimalValue(s);
      StrToUL(sign + s + rest) ==
        if v >= ULongLimit then ULongLimit - 1
        else if sign == ['-'] then (ULongLimit - v) % ULongLimit
        else v
  {
    var tok := sign + s + rest;
    SignedParts(sign, s, rest);
    assert StrToUL(tok) == SignedValue(tok);
    DigitsThen(s, rest);
    var body := s + rest;
    assert DigitsLength(body) == |s|;
    assert body[..|s|] == s;
  }

  /** Where the sign and the digits of `sign + s + rest` are. */
  lemma SignedParts(sign: string, s: string, rest: string)
    requires sign == [] || sign == ['+'] || sign == ['-']
    requires |s| > 0 && IsDigit(s[0])
    ensures var tok := sign + s + rest;
      tok != [] && !IsSpace(tok[0]) &&
      (tok[0] == '-' <==> sign == ['-']) &&
      (if tok[0] == '-' || tok[0] == '+' then tok[1..] else tok) == s + rest
  {
    var tok := sign + s + rest;
    assert tok == sign + (s + rest);
    if sign == [] {
      assert tok == s + rest && tok[0] == s[0];
    } else {
      assert tok[0] == sign[0] && tok[1..] == s + rest;
    }
  }

  /** Negation modulo 2^64. */
  lemma NegateModulo(v: int)
    requires 0 <= v < ULongLimit
    ensures (ULongLimit - v) % ULongLimit == if v == 0 then 0 else ULongLimit - v
  {
  }

  lemma {:induction false} DigitsThen(s: string, rest: string)
    requires forall k :: 0 <= k < |s| ==> IsDigit(s[k])
    requires rest == [] || !IsDigit(rest[0])
    ensures DigitsLength(s + rest) == |s|
    decreases |s|
  {
    if s != [] {
      assert (s + rest)[1..] == s[1..] + rest;
      DigitsThen(s[1..], rest);
    }
  }

  lemma DigitsOnly(s: string)
    requires forall k :: 0 <= k < |s| ==> IsDigit(s[k])
    ensures DigitsLength(s) == |s|
  {
    if s != [] {
      DigitsOnly(s[1..]);
    }
  }

  // ---------------------------------------------------------------------------
  // tolower

  /** `tolower` in the C locale: only ASCII capitals change. */
  function ToLower(c: char): (r: char)
    ensures 'A' <= c <= 'Z' ==> r as int == c as int + 32
    ensures !('A' <= c <= 'Z') ==> r == c
  {
    if 'A' <= c <= 'Z' then (c as int + 32) as char else c
  }

  /** A token lowercased character by character. */
  function Lowercase(s: string): (r: string)
    ensures |r| == |s|
    ensures forall k :: 0 <= k < |s| ==> r[k] == ToLower(s[k])
  {
    if s == [] then [] else [ToLower(s[0])] + Lowercase(s[1..])
  }
}
