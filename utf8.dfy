/** The two character encodings the model needs: UTF-8, which the content
    store uses for every text file, and ISO-8859-1, which turns content keys
    into AES key bytes. */
module Utf8 {
  import opened JavaLang

  predicate IsContinuation(b: int) {
    0x80 <= b < 0xC0
  }

  /** A Unicode scalar value: what a Dafny `char` holds. */
  predicate IsScalar(n: int) {
    (0 <= n < 0xD800) || (0xE000 <= n < 0x11_0000)
  }

  /** The UTF-8 bytes of one character (1 to 4 of them). */
  function EncodeChar(c: char): (r: seq<Byte>)
    ensures 1 <= |r| <= 4
  {
    var n := c as int;
    if n < 0x80 then [n]
    else if n < 0x800 then [0xC0 + n / 64, 0x80 + n % 64]
    else if n < 0x1_0000 then [0xE0 + n / 4096, 0x80 + (n / 64) % 64, 0x80 + n % 64]
    else [0xF0 + n / 0x4_0000, 0x80 + (n / 4096) % 64, 0x80 + (n / 64) % 64, 0x80 + n % 64]
  }

  /** `string.getBytes(StandardCharsets.UTF_8)`. */
  function Encode(s: string): (r: seq<Byte>)
    ensures |s| <= |r| <= 4 * |s|
  {
    if s == [] then [] else EncodeChar(s[0]) + Encode(s[1..])
  }

  const Replacement: char := '\U{FFFD}'

  /** A second byte that cannot follow a three-byte lead: not a
      continuation, or an overlong form after `E0`. */
  predicate BadSecondOf3(lead: int, b: int) {
    (lead == 0xE0 && 0x80 <= b < 0xA0) || !IsContinuation(b)
  }

  /** A second byte that cannot follow a four-byte lead: not a
      continuation, an overlong form after `F0`, or a value above U+10FFFF
      after `F4`. */
  predicate BadSecondOf4(lead: int, b: int) {
    (lead == 0xF0 && (b < 0x90 || b > 0xBF)) || (lead == 0xF4 && !(0x80 <= b < 0x90)) || !IsContinuation(b)
  }

  /** The character at the front of a non-empty byte string and how many
      bytes it takes, as the JDK's UTF-8 decoder goes: a well-formed
      sequence gives its character; a malformed one gives U+FFFD for its
      longest prefix that could still have begun a well-formed sequence,
      and decoding goes on after that prefix. A truncated sequence at the
      end of the input gives U+FFFD and ends the decoding (the count is
      then the whole input), except where its second byte could never
      follow its lead, which is read again. An encoded surrogate is
      replaced as a whole. */
  function DecodeFirst(b: seq<Byte>): (r: (char, nat))
    requires b != []
    ensures 1 <= r.1 <= |b|
  {
    var b0: int := b[0];
    var b1: int := if |b| > 1 then b[1] else 0;
    var b2: int := if |b| > 2 then b[2] else 0;
    var b3: int := if |b| > 3 then b[3] else 0;
    if b0 < 0x80 then (b0 as char, 1)
    else if 0xC2 <= b0 < 0xE0 then
      if |b| < 2 || !IsContinuation(b1) then (Replacement, 1)
      else (((b0 - 0xC0) * 64 + (b1 - 0x80)) as char, 2)
    else if 0xE0 <= b0 < 0xF0 then
      if |b| >= 3 then
        if BadSecondOf3(b0, b1) then (Replacement, 1)
        else if !IsContinuation(b2) then (Replacement, 2)
        else
          var n := (b0 - 0xE0) * 4096 + (b1 - 0x80) * 64 + (b2 - 0x80);
          if IsScalar(n) then (n as char, 3) else (Replacement, 3)
      else if |b| == 2 && BadSecondOf3(b0, b1) then (Replacement, 1)
      else (Replacement, |b|)
    else if 0xF0 <= b0 < 0xF8 then
      if |b| >= 4 then
        if b0 > 0xF4 || BadSecondOf4(b0, b1) then (Replacement, 1)
        else if !IsContinuation(b2) then (Replacement, 2)
        else if !IsContinuation(b3) then (Replacement, 3)
        else (((b0 - 0xF0) * 0x4_0000 + (b1 - 0x80) * 4096 + (b2 - 0x80) * 64 + (b3 - 0x80)) as char, 4)
      else if b0 > 0xF4 || (|b| >= 2 && BadSecondOf4(b0, b1)) then (Replacement, 1)
      else if |b| == 3 && !IsContinuation(b2) then (Replacement, 2)
      else (Replacement, |b|)
    else (Replacement, 1)
  }

  /** `new String(bytes, StandardCharsets.UTF_8)`. */
  function Decode(b: seq<Byte>): (s: string)
    ensures |s| <= |b|
    decreases |b|
  {
    if b == [] then []
    else
      var (c, n) := DecodeFirst(b);
      [c] + Decode(b[n..])
  }

  lemma Split2(n: int)
    requires 0 <= n
    ensures (n / 64) * 64 + n % 64 == n
  {
  }

  lemma Split3(n: int)
    requires 0 <= n < 0x1_0000
    ensures (n / 4096) * 4096 + ((n / 64) % 64) * 64 + n % 64 == n
  {
    Split2(n);
    Split2(n / 64);
    assert (n / 64) / 64 == n / 4096;
  }

  lemma Split4(n: int)
    requires 0 <= n < 0x11_0000
    ensures (n / 0x4_0000) * 0x4_0000 + ((n / 4096) % 64) * 4096 + ((n / 64) % 64) * 64 + n % 64 == n
  {
    Split2(n);
    Split2(n / 64);
    Split2(n / 4096);
    assert (n / 64) / 64 == n / 4096;
    assert (n / 4096) / 64 == n / 0x4_0000;
  }

  lemma DecodeFirstEncodeChar(c: char, rest: seq<Byte>)
    ensures DecodeFirst(EncodeChar(c) + rest) == (c, |EncodeChar(c)|)
  {
    var n := c as int;
    var b := EncodeChar(c) + rest;
    if n < 0x80 {
    } else if n < 0x800 {
      Split2(n);
      assert b[0] == 0xC0 + n / 64 && b[1] == 0x80 + n % 64;
    } else if n < 0x1_0000 {
      Split3(n);
      assert b[0] == 0xE0 + n / 4096 && b[1] == 0x80 + (n / 64) % 64 && b[2] == 0x80 + n % 64;
    } else {
      Split4(n);
      assert b[0] == 0xF0 + n / 0x4_0000 && b[1] == 0x80 + (n / 4096) % 64;
      assert b[2] == 0x80 + (n / 64) % 64 && b[3] == 0x80 + n % 64;
    }
  }

  lemma EncodeTwo(x0: int, x1: int)
    requires 0xC2 <= x0 < 0xE0 && IsContinuation(x1)
    ensures EncodeChar(((x0 - 0xC0) * 64 + (x1 - 0x80)) as char) == [x0, x1]
  {
    var v := (x0 - 0xC0) * 64 + (x1 - 0x80);
    assert v / 64 == x0 - 0xC0 && v % 64 == x1 - 0x80;
  }

  lemma EncodeThree(x0: int, x1: int, x2: int)
    requires 0xE0 <= x0 < 0xF0 && !BadSecondOf3(x0, x1) && IsContinuation(x2)
    requires IsScalar((x0 - 0xE0) * 4096 + (x1 - 0x80) * 64 + (x2 - 0x80))
    ensures EncodeChar(((x0 - 0xE0) * 4096 + (x1 - 0x80) * 64 + (x2 - 0x80)) as char) == [x0, x1, x2]
  {
    var v := (x0 - 0xE0) * 4096 + (x1 - 0x80) * 64 + (x2 - 0x80);
    assert v / 64 == (x0 - 0xE0) * 64 + (x1 - 0x80) && v % 64 == x2 - 0x80;
    assert v / 4096 == x0 - 0xE0 && (v / 64) % 64 == x1 - 0x80;
  }

  lemma EncodeFour(x0: int, x1: int, x2: int, x3: int)
    requires 0xF0 <= x0 <= 0xF4 && !BadSecondOf4(x0, x1) && IsContinuation(x2) && IsContinuation(x3)
    ensures var v := (x0 - 0xF0) * 0x4_0000 + (x1 - 0x80) * 4096 + (x2 - 0x80) * 64 + (x3 - 0x80);
      IsScalar(v) && EncodeChar(v as char) == [x0, x1, x2, x3]
  {
    var v := (x0 - 0xF0) * 0x4_0000 + (x1 - 0x80) * 4096 + (x2 - 0x80) * 64 + (x3 - 0x80);
    assert v / 64 == (x0 - 0xF0) * 4096 + (x1 - 0x80) * 64 + (x2 - 0x80) && v % 64 == x3 - 0x80;
    assert v / 4096 == (x0 - 0xF0) * 64 + (x1 - 0x80) && (v / 64) % 64 == x2 - 0x80;
    assert v / 0x4_0000 == x0 - 0xF0 && (v / 4096) % 64 == x1 - 0x80;
  }

  /** A character other than U+FFFD is read only from its own encoding:
      the bytes it takes are exactly the bytes `EncodeChar` writes for it. */
  lemma DecodeFirstSound(b: seq<Byte>)
    requires b != [] && DecodeFirst(b).0 != Replacement
    ensures var (c, n) := DecodeFirst(b); b[..n] == EncodeChar(c)
  {
    var x0: int := b[0];
    if 0xC2 <= x0 < 0xE0 {
      EncodeTwo(x0, b[1]);
    } else if 0xE0 <= x0 < 0xF0 {
      EncodeThree(x0, b[1], b[2]);
    } else if 0xF0 <= x0 < 0xF8 {
      EncodeFour(x0, b[1], b[2], b[3]);
    }
  }

  /** The JDK's replacement rule on a concrete input: `E2 82` begins a
      three-byte form that `41` breaks, so the pair gives one U+FFFD and
      `41` is read again. */
  lemma TruncatedFormOneReplacement()
    ensures Decode([0xE2, 0x82, 0x41]) == [Replacement, 'A']
  {
    assert DecodeFirst([0xE2, 0x82, 0x41]) == (Replacement, 2);
    assert [0xE2, 0x82, 0x41][2..] == [0x41];
    assert Decode([0x41]) == ['A'] by {
      assert DecodeFirst([0x41]) == ('A', 1);
    }
  }

  /** Decoding what was encoded gives the string back: `getString` after
      `putString` returns the text that was put. */
  lemma {:induction false} DecodeEncode(s: string)
    ensures Decode(Encode(s)) == s
  {
    if s != [] {
      var rest := Encode(s[1..]);
      DecodeFirstEncodeChar(s[0], rest);
      assert (EncodeChar(s[0]) + rest)[|EncodeChar(s[0])|..] == rest;
      DecodeEncode(s[1..]);
    }
  }

  /** Bytes that decode without a replacement character are well-formed
      UTF-8: encoding the decoded text gives them back. */
  lemma {:induction false} EncodeDecode(b: seq<Byte>)
    requires Replacement !in Decode(b)
    ensures Encode(Decode(b)) == b
  {
    if b != [] {
      var (c, n) := DecodeFirst(b);
      assert Decode(b) == [c] + Decode(b[n..]);
      DecodeFirstSound(b);
      EncodeDecode(b[n..]);
      assert ([c] + Decode(b[n..]))[1..] == Decode(b[n..]);
      assert b == b[..n] + b[n..];
    }
  }

  /** `string.getBytes(StandardCharsets.ISO_8859_1)`: one byte per character,
      `?` for a character above U+00FF. */
  function Latin1(s: string): (r: seq<Byte>)
    ensures |r| == |s|
    ensures forall i :: 0 <= i < |s| ==> r[i] == if s[i] as int < 0x100 then s[i] as int else '?' as int
  {
    if s == [] then [] else [if s[0] as int < 0x100 then s[0] as int else '?' as int] + Latin1(s[1..])
  }
}
