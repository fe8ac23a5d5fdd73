/**
  UTF-8 well-formedness as the host's decoder checks it, and the encoding of
  section 3 of RFC 3629 that it recognises.
 */
module Utf8 {
  import opened MachineWords

  predicate IsContinuation(b: Byte) {
    0x80 <= b <= 0xBF
  }

  predicate IsSecondOfThree(lead: Byte, b: Byte) {
    && IsContinuation(b)
    && (lead == 0xE0 ==> 0xA0 <= b)
    && (lead == 0xED ==> b <= 0x9F)
  }

  predicate IsSecondOfFour(lead: Byte, b: Byte) {
    && IsContinuation(b)
    && (lead == 0xF0 ==> 0x90 <= b)
    && (lead == 0xF4 ==> b <= 0x8F)
  }

  predicate IsUtf8(s: seq<Byte>) {
    if s == [] then true
    else if s[0] < 0x80 then IsUtf8(s[1..])
    else if 0xC2 <= s[0] <= 0xDF then
      |s| >= 2 && IsContinuation(s[1]) && IsUtf8(s[2..])
    else if 0xE0 <= s[0] <= 0xEF then
      |s| >= 3 && IsSecondOfThree(s[0], s[1]) && IsContinuation(s[2]) && IsUtf8(s[3..])
    else if 0xF0 <= s[0] <= 0xF4 then
      |s| >= 4 && IsSecondOfFour(s[0], s[1]) && IsContinuation(s[2]) && IsContinuation(s[3]) && IsUtf8(s[4..])
    else false
  }

  lemma {:induction false} AsciiIsUtf8(s: seq<Byte>)
    requires forall i :: 0 <= i < |s| ==> s[i] < 0x80
    ensures IsUtf8(s)
  {
    if s != [] {
      AsciiIsUtf8(s[1..]);
    }
  }

  // ---- exactly the encodings of sequences of scalar values ----

  /** A Unicode scalar value: any code point but a surrogate. */
  type Scalar = c: int | 0 <= c <= 0xD7FF || 0xE000 <= c <= 0x10FFFF

  function Encode(c: Scalar): (s: seq<Byte>)
    ensures s != []
  {
    if c < 0x80 then [c]
    else if c < 0x800 then [0xC0 + c / 64, 0x80 + c % 64]
    else if c < 0x1_0000 then [0xE0 + c / 4096, 0x80 + c / 64 % 64, 0x80 + c % 64]
    else [0xF0 + c / 262144, 0x80 + c / 4096 % 64, 0x80 + c / 64 % 64, 0x80 + c % 64]
  }

  function EncodeAll(cs: seq<Scalar>): seq<Byte> {
    if cs == [] then [] else Encode(cs[0]) + EncodeAll(cs[1..])
  }

  lemma {:induction false} EncodingIsUtf8(c: Scalar, rest: seq<Byte>)
    requires IsUtf8(rest)
    ensures IsUtf8(Encode(c) + rest)
  {
    var s := Encode(c) + rest;
    assert s[|Encode(c)|..] == rest;
  }

  /** The scalar value a well-formed string starts with. */
  function FirstScalar(s: seq<Byte>): Scalar
    requires s != [] && IsUtf8(s)
  {
    var a: int := s[0];
    if a < 0x80 then a
    else
      var b: int := s[1];
      if a < 0xE0 then (a - 0xC0) * 64 + (b - 0x80)
      else
        var c: int := s[2];
        if a < 0xF0 then ((a - 0xE0) * 64 + (b - 0x80)) * 64 + (c - 0x80)
        else
          var d: int := s[3];
          (((a - 0xF0) * 64 + (b - 0x80)) * 64 + (c - 0x80)) * 64 + (d - 0x80)
  }

  lemma LastDigit(q: nat, r: nat)
    requires r < 64
    ensures (q * 64 + r) / 64 == q && (q * 64 + r) % 64 == r
  {
  }

  lemma DivideTwice(n: nat)
    ensures n / 4096 == n / 64 / 64
    ensures n / 262144 == n / 4096 / 64
  {
  }

  /** Base-64 digits are recovered from the number they spell. */
  lemma Digits(w: nat, x: nat, y: nat, z: nat)
    requires x < 64 && y < 64 && z < 64
    ensures var n := ((w * 64 + x) * 64 + y) * 64 + z;
            n / 262144 == w && n / 4096 % 64 == x && n / 64 % 64 == y && n % 64 == z
            && (w == 0 ==> n / 4096 == x && (x == 0 ==> n / 64 == y))
  {
    LastDigit((w * 64 + x) * 64 + y, z);
    LastDigit(w * 64 + x, y);
    LastDigit(w, x);
    DivideTwice(((w * 64 + x) * 64 + y) * 64 + z);
  }

  lemma EncodeTwo(x: nat, y: nat)
    requires 2 <= x < 32 && y < 64
    ensures Encode(x * 64 + y) == [0xC0 + x, 0x80 + y]
  {
    LastDigit(x, y);
  }

  lemma EncodeThree(x: nat, y: nat, z: nat)
    requires x < 16 && y < 64 && z < 64 && (x == 0 ==> y >= 32) && (x == 13 ==> y < 32)
    ensures Encode((x * 64 + y) * 64 + z) == [0xE0 + x, 0x80 + y, 0x80 + z]
  {
    Digits(0, x, y, z);
  }

  lemma EncodeFour(w: nat, x: nat, y: nat, z: nat)
    requires w <= 4 && x < 64 && y < 64 && z < 64 && (w == 0 ==> x >= 16) && (w == 4 ==> x < 16)
    ensures Encode(((w * 64 + x) * 64 + y) * 64 + z) == [0xF0 + w, 0x80 + x, 0x80 + y, 0x80 + z]
  {
    Digits(w, x, y, z);
  }

  lemma {:induction false} StartsWithScalar(s: seq<Byte>)
    requires s != [] && IsUtf8(s)
    ensures var first := Encode(FirstScalar(s)); first <= s && IsUtf8(s[|first|..])
  {
    if s[0] < 0x80 {
      assert Encode(FirstScalar(s)) == s[..1];
    } else {
      hide Encode;
      if s[0] < 0xE0 {
        EncodeTwo(s[0] - 0xC0, s[1] - 0x80);
      } else if s[0] < 0xF0 {
        EncodeThree(s[0] - 0xE0, s[1] - 0x80, s[2] - 0x80);
      } else {
        EncodeFour(s[0] - 0xF0, s[1] - 0x80, s[2] - 0x80, s[3] - 0x80);
      }
    }
  }

  lemma Decodes(s: seq<Byte>) returns (cs: seq<Scalar>)
    requires IsUtf8(s)
    ensures EncodeAll(cs) == s
  {
    if s == [] {
      cs := [];
    } else {
      var first := FirstScalar(s);
      StartsWithScalar(s);
      var rest := Decodes(s[|Encode(first)|..]);
      cs := [first] + rest;
      assert cs[1..] == rest;
    }
  }

  lemma {:induction false} EncodingsAreUtf8(cs: seq<Scalar>)
    ensures IsUtf8(EncodeAll(cs))
  {
    if cs != [] {
      EncodingsAreUtf8(cs[1..]);
      EncodingIsUtf8(cs[0], EncodeAll(cs[1..]));
    }
  }

  /** The check accepts exactly the encodings of sequences of scalar values. */
  lemma {:induction false} Utf8Exactly(s: seq<Byte>)
    ensures IsUtf8(s) <==> exists cs :: EncodeAll(cs) == s
  {
    if IsUtf8(s) {
      var cs := Decodes(s);
      assert EncodeAll(cs) == s;
    }
    if cs :| EncodeAll(cs) == s {
      EncodingsAreUtf8(cs);
    }
  }
}
