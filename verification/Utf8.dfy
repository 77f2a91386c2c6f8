/** The validity check for output names, against the UTF-8 encoding of RFC 3629. */
module Utf8 {
  import opened Bytes

  /** A Unicode scalar value other than zero. */
  type Scalar = c: int | 0 < c < 0x11_0000 && !(0xd800 <= c <= 0xdfff) witness 1

  /** Section 3 of RFC 3629. */
  function EncodeScalar(c: Scalar): (s: seq<Byte>)
    ensures 1 <= |s| <= 4
  {
    if c < 0x80 then [c]
    else if c < 0x800 then [0xc0 + c / 0x40, 0x80 + c % 0x40]
    else if c < 0x1_0000 then [0xe0 + c / 0x1000, 0x80 + c / 0x40 % 0x40, 0x80 + c % 0x40]
    else [0xf0 + c / 0x4_0000, 0x80 + c / 0x1000 % 0x40, 0x80 + c / 0x40 % 0x40, 0x80 + c % 0x40]
  }

  function Encode(text: seq<Scalar>): seq<Byte> {
    if text == [] then [] else EncodeScalar(text[0]) + Encode(text[1..])
  }

  /** The bytes encode some text without NUL. */
  ghost predicate WellFormed(bytes: seq<Byte>) {
    exists text: seq<Scalar> :: Encode(text) == bytes
  }

  // ---- One character, as the check reads it ----

  /** Continuation bytes the first byte announces; 0 for a byte that cannot start a multi-byte character. */
  function Continuations(first: Byte): (n: nat)
    ensures n <= 3
  {
    if 0xc2 <= first <= 0xdf then 1 else if 0xe0 <= first <= 0xef then 2 else if 0xf0 <= first <= 0xf4 then 3 else 0
  }

  /** The bits the first byte contributes. */
  function LeadBits(first: Byte): nat {
    var n := Continuations(first);
    if n == 1 then first % 0x20 else if n == 2 then first % 0x10 else first % 0x08
  }

  predicate IsContinuation(b: Byte) { b / 0x40 == 2 }

  /** The code point after the first byte and `n` continuation bytes. */
  function CodePoint(bytes: seq<Byte>, n: nat): nat
    requires n < |bytes|
  {
    if n == 0 then LeadBits(bytes[0]) else CodePoint(bytes, n - 1) * 0x40 + bytes[n] % 0x40
  }

  predicate Admitted(n: nat, codePoint: nat) {
    && !(n == 2 && codePoint < 0x800)
    && !(n == 3 && codePoint < 0x1_0000)
    && !(0xd800 <= codePoint <= 0xdfff)
    && codePoint <= 0x10_ffff
  }

  /** Length of the character at the front, or 0 if there is no valid one. */
  function FirstLength(bytes: seq<Byte>): (n: nat)
    requires bytes != []
    ensures n <= |bytes|
  {
    var first := bytes[0];
    if first <= 0x7f then if first == 0 then 0 else 1
    else
      var n := Continuations(first);
      if n == 0 || n > |bytes| - 1 then 0
      else if forall i :: 1 <= i <= n ==> IsContinuation(bytes[i]) then if Admitted(n, CodePoint(bytes, n)) then n + 1 else 0
      else 0
  }

  predicate Accepts(bytes: seq<Byte>) {
    bytes == [] || (FirstLength(bytes) > 0 && Accepts(bytes[FirstLength(bytes)..]))
  }

  // Base-64 digits of a code point.

  lemma Split3(a: nat, b: nat, d: nat)
    requires b < 0x40 && d < 0x40
    ensures var c := (a * 0x40 + b) * 0x40 + d; c / 0x1000 == a && c / 0x40 % 0x40 == b && c % 0x40 == d
  {
    var c := (a * 0x40 + b) * 0x40 + d;
    assert c / 0x40 == a * 0x40 + b;
  }

  lemma Split4(a: nat, b: nat, d: nat, e: nat)
    requires b < 0x40 && d < 0x40 && e < 0x40
    ensures var c := ((a * 0x40 + b) * 0x40 + d) * 0x40 + e;
      c / 0x4_0000 == a && c / 0x1000 % 0x40 == b && c / 0x40 % 0x40 == d && c % 0x40 == e
  {
    var c := ((a * 0x40 + b) * 0x40 + d) * 0x40 + e;
    assert c / 0x40 == (a * 0x40 + b) * 0x40 + d;
    assert c / 0x1000 == a * 0x40 + b;
  }

  lemma Join3(c: nat)
    ensures (c / 0x1000 * 0x40 + c / 0x40 % 0x40) * 0x40 + c % 0x40 == c
  {
    var q := c / 0x40;
    assert q / 0x40 == c / 0x1000;
    assert q == q / 0x40 * 0x40 + q % 0x40;
  }

  lemma Join4(c: nat)
    ensures ((c / 0x4_0000 * 0x40 + c / 0x1000 % 0x40) * 0x40 + c / 0x40 % 0x40) * 0x40 + c % 0x40 == c
  {
    var q := c / 0x1000;
    assert q / 0x40 == c / 0x4_0000;
    assert q == q / 0x40 * 0x40 + q % 0x40;
    Join3(c);
  }

  lemma ContinuationByte(x: nat)
    requires x < 0x40
    ensures IsContinuation(0x80 + x) && (0x80 + x) % 0x40 == x
  {
  }

  lemma ContinuationBits(b: Byte)
    requires IsContinuation(b)
    ensures b == 0x80 + b % 0x40
  {
  }

  /** First bytes and the bits they carry, in both directions. */
  lemma LeadByte(n: nat, x: nat)
    requires (n == 1 && 0x02 <= x < 0x20) || (n == 2 && x < 0x10) || (n == 3 && x < 0x05)
    ensures var first := (if n == 1 then 0xc0 else if n == 2 then 0xe0 else 0xf0) + x;
      Continuations(first) == n && LeadBits(first) == x
  {
  }

  lemma LeadByteBits(first: Byte)
    requires Continuations(first) > 0
    ensures var n, x := Continuations(first), LeadBits(first);
      && first == (if n == 1 then 0xc0 else if n == 2 then 0xe0 else 0xf0) + x
      && (n == 1 ==> 0x02 <= x < 0x20) && (n == 2 ==> x < 0x10) && (n == 3 ==> x < 0x05)
  {
  }

  /** The code point of two, three or four bytes, written out. */
  lemma CodePointDigits(bytes: seq<Byte>)
    requires bytes != []
    ensures |bytes| > 1 ==> CodePoint(bytes, 1) == LeadBits(bytes[0]) * 0x40 + bytes[1] % 0x40
    ensures |bytes| > 2 ==> CodePoint(bytes, 2) == (LeadBits(bytes[0]) * 0x40 + bytes[1] % 0x40) * 0x40 + bytes[2] % 0x40
    ensures |bytes| > 3 ==>
      CodePoint(bytes, 3) == ((LeadBits(bytes[0]) * 0x40 + bytes[1] % 0x40) * 0x40 + bytes[2] % 0x40) * 0x40 + bytes[3] % 0x40
  {
    hide LeadBits;
    if |bytes| > 1 {
      assert CodePoint(bytes, 0) == LeadBits(bytes[0]);
    }
    if |bytes| > 2 {
      assert CodePoint(bytes, 2) == CodePoint(bytes, 1) * 0x40 + bytes[2] % 0x40;
    }
    if |bytes| > 3 {
      assert CodePoint(bytes, 3) == CodePoint(bytes, 2) * 0x40 + bytes[3] % 0x40;
    }
  }

  lemma DecodeMulti(bytes: seq<Byte>, n: nat) returns (c: Scalar)
    requires bytes != [] && 0 < n == Continuations(bytes[0]) < |bytes| && Admitted(n, CodePoint(bytes, n))
    requires forall i :: 1 <= i <= n ==> IsContinuation(bytes[i])
    ensures bytes[..n + 1] == EncodeScalar(c)
  {
    hide CodePoint, LeadBits, Continuations, IsContinuation;
    CodePointDigits(bytes);
    LeadByteBits(bytes[0]);
    var a, b := LeadBits(bytes[0]), bytes[1] % 0x40;
    ContinuationBits(bytes[1]);
    c := CodePoint(bytes, n);
    if n == 1 {
      assert EncodeScalar(c) == [bytes[0], bytes[1]];
    } else if n == 2 {
      ContinuationBits(bytes[2]);
      Split3(a, b, bytes[2] % 0x40);
      assert EncodeScalar(c) == [bytes[0], bytes[1], bytes[2]];
    } else {
      ContinuationBits(bytes[2]);
      ContinuationBits(bytes[3]);
      Split4(a, b, bytes[2] % 0x40, bytes[3] % 0x40);
      assert EncodeScalar(c) == [bytes[0], bytes[1], bytes[2], bytes[3]];
    }
  }

  lemma FirstDecodes(bytes: seq<Byte>) returns (c: Scalar)
    requires bytes != [] && FirstLength(bytes) > 0
    ensures bytes[..FirstLength(bytes)] == EncodeScalar(c)
  {
    hide CodePoint, LeadBits, Continuations, IsContinuation;
    if bytes[0] <= 0x7f {
      c := bytes[0];
    } else {
      c := DecodeMulti(bytes, Continuations(bytes[0]));
    }
  }

  lemma Encoded2(c: Scalar, bytes: seq<Byte>)
    requires 0x80 <= c < 0x800 && EncodeScalar(c) <= bytes
    ensures FirstLength(bytes) == 2
  {
    hide CodePoint, LeadBits, Continuations, IsContinuation;
    CodePointDigits(bytes);
    LeadByte(1, c / 0x40);
    ContinuationByte(c % 0x40);
  }

  lemma Encoded3(c: Scalar, bytes: seq<Byte>)
    requires 0x800 <= c < 0x1_0000 && EncodeScalar(c) <= bytes
    ensures FirstLength(bytes) == 3
  {
    hide CodePoint, LeadBits, Continuations, IsContinuation;
    CodePointDigits(bytes);
    LeadByte(2, c / 0x1000);
    ContinuationByte(c / 0x40 % 0x40);
    ContinuationByte(c % 0x40);
    Join3(c);
  }

  lemma Encoded4(c: Scalar, bytes: seq<Byte>)
    requires 0x1_0000 <= c && EncodeScalar(c) <= bytes
    ensures FirstLength(bytes) == 4
  {
    hide CodePoint, LeadBits, Continuations, IsContinuation;
    CodePointDigits(bytes);
    LeadByte(3, c / 0x4_0000);
    ContinuationByte(c / 0x1000 % 0x40);
    ContinuationByte(c / 0x40 % 0x40);
    ContinuationByte(c % 0x40);
    Join4(c);
  }

  lemma FirstOfEncoded(c: Scalar, rest: seq<Byte>)
    ensures FirstLength(EncodeScalar(c) + rest) == |EncodeScalar(c)|
  {
    var bytes := EncodeScalar(c) + rest;
    if c >= 0x1_0000 {
      Encoded4(c, bytes);
    } else if c >= 0x800 {
      Encoded3(c, bytes);
    } else if c >= 0x80 {
      Encoded2(c, bytes);
    }
  }

  lemma {:induction false} AcceptedIsWellFormed(bytes: seq<Byte>) returns (text: seq<Scalar>)
    requires Accepts(bytes)
    ensures Encode(text) == bytes
    decreases |bytes|
  {
    if bytes == [] {
      text := [];
    } else {
      var n := FirstLength(bytes);
      var c := FirstDecodes(bytes);
      var tail := AcceptedIsWellFormed(bytes[n..]);
      text := [c] + tail;
      assert text[1..] == tail;
      assert bytes[..n] + bytes[n..] == bytes;
    }
  }

  lemma {:induction false} EncodedIsAccepted(text: seq<Scalar>)
    ensures Accepts(Encode(text))
  {
    if text != [] {
      FirstOfEncoded(text[0], Encode(text[1..]));
      EncodedIsAccepted(text[1..]);
      assert Encode(text)[|EncodeScalar(text[0])|..] == Encode(text[1..]);
    }
  }

  /** The check accepts exactly the encodings of texts without NUL: no overlong form, surrogate, or value above U+10FFFF. */
  lemma AcceptsIsWellFormed(bytes: seq<Byte>)
    ensures Accepts(bytes) <==> WellFormed(bytes)
  {
    if Accepts(bytes) {
      var text := AcceptedIsWellFormed(bytes);
    }
    if WellFormed(bytes) {
      var text: seq<Scalar> :| Encode(text) == bytes;
      EncodedIsAccepted(text);
    }
  }

  lemma {:induction false} AcceptedHasNoNul(bytes: seq<Byte>)
    requires Accepts(bytes)
    ensures 0 !in bytes
    decreases |bytes|
  {
    if bytes != [] {
      var n := FirstLength(bytes);
      var c := FirstDecodes(bytes);
      assert 0 !in EncodeScalar(c);
      AcceptedHasNoNul(bytes[n..]);
      assert bytes == bytes[..n] + bytes[n..];
    }
  }

  /** Reads the continuation bytes of the character at `index`; 0 stands for an invalid one. */
  method ScanMulti(text: seq<Byte>, index: nat) returns (length: nat)
    requires index < |text| && text[index] > 0x7f
    ensures length == FirstLength(text[index..])
  {
    ghost var rest := text[index..];
    var count := Continuations(text[index]);
    if count == 0 || count > |text| - index - 1 {
      return 0;
    }
    var codePoint: nat := LeadBits(text[index]);
    var offset := 1;
    while offset <= count
      invariant 1 <= offset <= count + 1
      invariant codePoint == CodePoint(rest, offset - 1)
      invariant forall i :: 1 <= i < offset ==> IsContinuation(rest[i])
    {
      var next := text[index + offset];
      assert next == rest[offset];
      if !IsContinuation(next) {
        return 0;
      }
      codePoint := codePoint * 0x40 + next % 0x40;
      offset := offset + 1;
    }
    return if Admitted(count, codePoint) then count + 1 else 0;
  }

  /** Scans the text once, never past its end. */
  method IsValid(text: seq<Byte>) returns (valid: bool)
    ensures valid <==> WellFormed(text)
    ensures valid <==> Accepts(text)
  {
    AcceptsIsWellFormed(text);
    hide WellFormed;
    var index := 0;
    while index < |text|
      invariant index <= |text|
      invariant Accepts(text) <==> Accepts(text[index..])
    {
      ghost var rest := text[index..];
      var length := 1;
      if text[index] > 0x7f {
        length := ScanMulti(text, index);
      } else if text[index] == 0 {
        length := 0;
      }
      if length == 0 {
        return false;
      }
      index := index + length;
      assert rest[length..] == text[index..];
    }
    valid := true;
  }
}
