/** UTF-8 as section 4 of RFC 3629 defines it. Rust's `CStr::to_str` accepts
    exactly the byte strings of this grammar, Python's `bytes.decode("utf-8")`
    decodes exactly them, and `str.encode("utf-8")` produces them. */
module Utf8 {

  newtype byte = b: int | 0 <= b < 0x100

  datatype Option<+T> = None | Some(value: T)

  /** A continuation byte: UTF8-tail = %x80-BF. */
  predicate IsTail(b: byte) {
    0x80 <= b <= 0xBF
  }

  /** The range the byte after `lead` must fall in; for E0, ED, F0 and F4 it is
      narrower than UTF8-tail, which rules out overlong forms, surrogates and
      code points above U+10FFFF. */
  predicate SecondOk(lead: byte, b: byte) {
    if lead == 0xE0 then 0xA0 <= b <= 0xBF
    else if lead == 0xED then 0x80 <= b <= 0x9F
    else if lead == 0xF0 then 0x90 <= b <= 0xBF
    else if lead == 0xF4 then 0x80 <= b <= 0x8F
    else IsTail(b)
  }

  /** The number of bytes of the UTF8-char that starts `s`, or 0 when `s` does
      not start with one. */
  function CharWidth(s: seq<byte>): (n: nat)
    ensures n <= 4 && n <= |s|
  {
    if |s| == 0 then 0
    else if s[0] <= 0x7F then 1
    else if 0xC2 <= s[0] <= 0xDF then
      if |s| >= 2 && SecondOk(s[0], s[1]) then 2 else 0
    else if 0xE0 <= s[0] <= 0xEF then
      if |s| >= 3 && SecondOk(s[0], s[1]) && IsTail(s[2]) then 3 else 0
    else if 0xF0 <= s[0] <= 0xF4 then
      if |s| >= 4 && SecondOk(s[0], s[1]) && IsTail(s[2]) && IsTail(s[3]) then 4 else 0
    else 0
  }

  /** UTF8-octets = *( UTF8-char ): `s` splits into well-formed characters. */
  predicate IsUtf8(s: seq<byte>)
    decreases |s|
  {
    s == [] || (CharWidth(s) > 0 && IsUtf8(s[CharWidth(s)..]))
  }

  /** The code point of the character that starts `s`. */
  function DecodeChar(s: seq<byte>): (c: char)
    requires CharWidth(s) > 0
    ensures (c as int < 0x80) <==> CharWidth(s) == 1
  {
    var n := CharWidth(s);
    var v :=
      if n == 1 then s[0] as int
      else if n == 2 then (s[0] as int - 0xC0) * 0x40 + (s[1] as int - 0x80)
      else if n == 3 then (s[0] as int - 0xE0) * 0x1000 + (s[1] as int - 0x80) * 0x40 + (s[2] as int - 0x80)
      else (s[0] as int - 0xF0) * 0x40000 + (s[1] as int - 0x80) * 0x1000 + (s[2] as int - 0x80) * 0x40 + (s[3] as int - 0x80);
    v as char
  }

  /** Strict decoding: a string exactly when the bytes are well-formed. */
  function Decode(s: seq<byte>): (r: Option<string>)
    ensures r.Some? <==> IsUtf8(s)
    decreases |s|
  {
    if s == [] then Some("")
    else if CharWidth(s) == 0 then None
    else
      match Decode(s[CharWidth(s)..])
      case None => None
      case Some(rest) => Some([DecodeChar(s)] + rest)
  }

  /** The shortest UTF-8 form of one code point. */
  function EncodeChar(c: char): (s: seq<byte>)
    ensures 1 <= |s| <= 4 && CharWidth(s) == |s|
    ensures DecodeChar(s) == c
    ensures 0 in s <==> c == '\0'
  {
    var v := c as int;
    if v < 0x80 then
      [v as byte]
    else if v < 0x800 then
      EncodeTwo(v)
    else if v < 0x10000 then
      EncodeThree(v)
    else
      EncodeFour(v)
  }

  function EncodeTwo(v: int): (s: seq<byte>)
    requires 0x80 <= v < 0x800
    ensures |s| == 2 && CharWidth(s) == 2 && 0 !in s
    ensures DecodeChar(s) as int == v
  {
    var hi, lo := v / 0x40, v % 0x40;
    assert v == hi * 0x40 + lo;
    [(0xC0 + hi) as byte, (0x80 + lo) as byte]
  }

  function EncodeThree(v: int): (s: seq<byte>)
    requires 0x800 <= v < 0x10000 && !(0xD800 <= v < 0xE000)
    ensures |s| == 3 && CharWidth(s) == 3 && 0 !in s
    ensures DecodeChar(s) as int == v
  {
    var hi, mid, lo := v / 0x1000, v / 0x40 % 0x40, v % 0x40;
    assert v / 0x40 == hi * 0x40 + mid;
    assert v == hi * 0x1000 + mid * 0x40 + lo;
    [(0xE0 + hi) as byte, (0x80 + mid) as byte, (0x80 + lo) as byte]
  }

  function EncodeFour(v: int): (s: seq<byte>)
    requires 0x10000 <= v < 0x110000
    ensures |s| == 4 && CharWidth(s) == 4 && 0 !in s
    ensures DecodeChar(s) as int == v
  {
    var top, hi, mid, lo := v / 0x40000, v / 0x1000 % 0x40, v / 0x40 % 0x40, v % 0x40;
    assert v / 0x1000 == top * 0x40 + hi;
    assert v / 0x40 == (top * 0x40 + hi) * 0x40 + mid;
    assert v == top * 0x40000 + hi * 0x1000 + mid * 0x40 + lo;
    [(0xF0 + top) as byte, (0x80 + hi) as byte, (0x80 + mid) as byte, (0x80 + lo) as byte]
  }

  /** Encoding a string character by character; it is well-formed and holds a
      NUL byte only where the string holds a NUL character. */
  function Encode(s: string): (r: seq<byte>)
    ensures IsUtf8(r)
    ensures 0 in r <==> '\0' in s
  {
    if s == "" then []
    else
      var head := EncodeChar(s[0]);
      CharWidthPrefix(head, Encode(s[1..]));
      assert (head + Encode(s[1..]))[|head|..] == Encode(s[1..]);
      assert s == [s[0]] + s[1..];
      head + Encode(s[1..])
  }

  /** The character at the start of `a` is read the same whatever follows it. */
  lemma CharWidthPrefix(a: seq<byte>, b: seq<byte>)
    requires CharWidth(a) > 0
    ensures CharWidth(a + b) == CharWidth(a)
    ensures DecodeChar(a + b) == DecodeChar(a)
  {
    var n := CharWidth(a);
    assert (a + b)[..n] == a[..n];
    assert forall i :: 0 <= i < n ==> (a + b)[i] == a[i];
  }

  /** Decoding undoes encoding. */
  lemma {:induction false} DecodeEncode(s: string)
    ensures Decode(Encode(s)) == Some(s)
    decreases |s|
  {
    if s != "" {
      var head, tail := EncodeChar(s[0]), Encode(s[1..]);
      CharWidthPrefix(head, tail);
      assert (head + tail)[|head|..] == tail;
      DecodeEncode(s[1..]);
      assert s == [s[0]] + s[1..];
    }
  }

  lemma DivMod64(hi: int, lo: int)
    requires 0 <= lo < 0x40 && hi >= 0
    ensures (hi * 0x40 + lo) / 0x40 == hi && (hi * 0x40 + lo) % 0x40 == lo
  {
  }

  /** Re-encoding a decoded character gives back its bytes. */
  lemma EncodeDecodeChar(s: seq<byte>)
    requires CharWidth(s) > 0
    ensures EncodeChar(DecodeChar(s)) == s[..CharWidth(s)]
  {
    var n := CharWidth(s);
    if n == 2 {
      EncodeDecodeTwo(s);
    } else if n == 3 {
      EncodeDecodeThree(s);
    } else if n == 4 {
      EncodeDecodeFour(s);
    }
  }

  lemma EncodeDecodeTwo(s: seq<byte>)
    requires CharWidth(s) == 2
    ensures EncodeTwo(DecodeChar(s) as int) == s[..2]
  {
    DivMod64(s[0] as int - 0xC0, s[1] as int - 0x80);
  }

  lemma EncodeDecodeThree(s: seq<byte>)
    requires CharWidth(s) == 3
    ensures DecodeChar(s) as int >= 0x800
    ensures EncodeThree(DecodeChar(s) as int) == s[..3]
  {
    var hi := (s[0] as int - 0xE0) * 0x40 + (s[1] as int - 0x80);
    var v := hi * 0x40 + (s[2] as int - 0x80);
    assert DecodeChar(s) as int == v;
    DivMod64(hi, s[2] as int - 0x80);
    DivMod64(s[0] as int - 0xE0, s[1] as int - 0x80);
    assert v / 0x1000 == v / 0x40 / 0x40;
  }

  lemma EncodeDecodeFour(s: seq<byte>)
    requires CharWidth(s) == 4
    ensures DecodeChar(s) as int >= 0x10000
    ensures EncodeFour(DecodeChar(s) as int) == s[..4]
  {
    var h1 := (s[0] as int - 0xF0) * 0x40 + (s[1] as int - 0x80);
    var h2 := h1 * 0x40 + (s[2] as int - 0x80);
    var v := h2 * 0x40 + (s[3] as int - 0x80);
    assert DecodeChar(s) as int == v;
    DivMod64(h2, s[3] as int - 0x80);
    DivMod64(h1, s[2] as int - 0x80);
    DivMod64(s[0] as int - 0xF0, s[1] as int - 0x80);
    assert v / 0x1000 == v / 0x40 / 0x40;
    assert v / 0x40000 == v / 0x40 / 0x40 / 0x40;
  }

  /** Encoding undoes decoding: a well-formed byte string is the encoding of
      the text it decodes to. */
  lemma {:induction false} EncodeDecode(s: seq<byte>)
    requires IsUtf8(s)
    ensures Encode(Decode(s).value) == s
    decreases |s|
  {
    if s != [] {
      var n := CharWidth(s);
      EncodeDecodeChar(s);
      EncodeDecode(s[n..]);
      var rest := Decode(s[n..]).value;
      var t := [DecodeChar(s)] + rest;
      assert Decode(s) == Some(t);
      assert t[0] == DecodeChar(s) && t[1..] == rest;
      assert Encode(t) == EncodeChar(DecodeChar(s)) + Encode(rest);
      assert s == s[..n] + s[n..];
    }
  }
}
