/**
  The message an oracle signs to vouch for a username, `name:strkey:expiry`,
  with the expiry printed in decimal, and the checks on a signed proof.
 */
module OwnershipMessages {
  import opened ByteStrings
  import opened MachineWords
  import opened Usernames

  // ---- decimal numerals ----

  predicate IsDigit(b: Byte) {
    0x30 <= b <= 0x39
  }

  /** Digits only, at least one, and no leading zero before another digit. */
  predicate IsNumeral(d: seq<Byte>) {
    && d != []
    && (forall i :: 0 <= i < |d| ==> IsDigit(d[i]))
    && (|d| > 1 ==> d[0] != 0x30)
  }

  function Digit(b: Byte): int {
    var code: int := b;
    code - 0x30
  }

  function Value(d: seq<Byte>): int {
    if d == [] then 0 else 10 * Value(d[..|d| - 1]) + Digit(d[|d| - 1])
  }

  function Decimal(n: nat): (d: seq<Byte>)
    ensures IsNumeral(d) && Value(d) == n && (n > 0 ==> d[0] != 0x30)
  {
    if n < 10 then [0x30 + n]
    else
      var d := Decimal(n / 10) + [0x30 + n % 10];
      assert d[..|d| - 1] == Decimal(n / 10);
      d
  }

  lemma {:induction false} DecimalUnfolds(n: nat)
    ensures Decimal(n) == (if n < 10 then [] else Decimal(n / 10)) + [0x30 + n % 10]
  {
  }

  /** The numeral of a number is unique, so parsing and printing invert each other. */
  lemma {:induction false} NumeralUnique(d: seq<Byte>)
    requires IsNumeral(d)
    ensures Value(d) >= 0 && Decimal(Value(d)) == d
    ensures d[0] != 0x30 ==> Value(d) > 0
  {
    hide Value, Decimal;
    var front, last := d[..|d| - 1], d[|d| - 1];
    assert d == front + [last];
    ValueOfAppend(front, last);
    if |d| > 1 {
      NumeralUnique(front);
    }
    var v := Value(front);
    assert (10 * v + Digit(last)) / 10 == v && (10 * v + Digit(last)) % 10 == Digit(last);
    DecimalUnfolds(10 * v + Digit(last));
  }

  lemma {:induction false} ValueOfAppend(front: seq<Byte>, last: Byte)
    ensures Value(front + [last]) == 10 * Value(front) + Digit(last)
    ensures front == [] ==> Value(front) == 0
  {
    assert (front + [last])[..|front|] == front;
  }

  function Pow10(k: nat): nat {
    if k == 0 then 1 else 10 * Pow10(k - 1)
  }

  lemma TwentyDigitsHoldU64()
    ensures Pow10(20) > U64_MAX
  {
    assert Pow10(5) == 100_000;
    assert Pow10(10) == 10_000_000_000;
    assert Pow10(15) == 1_000_000_000_000_000;
  }

  // ---- the message ----

  function Message(username: Name, address: Address, expiresAt: U64): seq<Byte> {
    username + [COLON] + address.strkey + [COLON] + Decimal(expiresAt)
  }

  method OwnershipMessage(username: Name, address: Address, expiresAt: U64) returns (msg: seq<Byte>)
    ensures msg == Message(username, address, expiresAt)
  {
    msg := username;
    msg := msg + [COLON];
    msg := msg + address.strkey;
    msg := msg + [COLON];
    var digits := PrintDecimal(expiresAt);
    msg := msg + digits;
  }

  /** The message by position: the name, a colon, the strkey, a colon, and the decimal expiry. */
  lemma MessageLayout(username: Name, address: Address, expiresAt: U64)
    ensures var msg, mid := Message(username, address, expiresAt), |username| + 1 + |address.strkey|;
            && |msg| > mid + 1
            && msg[..|username|] == username && msg[|username|] as char == ':'
            && msg[|username| + 1..mid] == address.strkey && msg[mid] as char == ':'
            && IsNumeral(msg[mid + 1..]) && Value(msg[mid + 1..]) == expiresAt
  {
    var msg, mid := Message(username, address, expiresAt), |username| + 1 + |address.strkey|;
    assert msg[mid + 1..] == Decimal(expiresAt);
  }

  /** A short message in characters. */
  lemma SmallMessage()
    ensures Message(Ascii("ab"), Address(Ascii("GX")), 1705) == Ascii("ab:GX:1705")
  {
    DecimalUnfolds(1705);
    DecimalUnfolds(170);
    DecimalUnfolds(17);
    DecimalUnfolds(1);
    assert Decimal(1705) == [0x31, 0x37, 0x30, 0x35];
  }

  lemma Pow10Unfolds(i: nat)
    requires i > 0
    ensures Pow10(i) == 10 * Pow10(i - 1) && (i == 1 ==> Pow10(i) == 10)
  {
  }

  /** Fills a twenty-place buffer from the right; it never underruns, as twenty digits hold any 64-bit number. */
  method PrintDecimal(number: U64) returns (printed: seq<Byte>)
    ensures printed == Decimal(number)
  {
    hide Decimal, Pow10;
    var digits := new Byte[20](_ => 0);
    var n: nat := number;
    var i := digits.Length;
    TwentyDigitsHoldU64();
    while true
      invariant 1 <= i <= 20 && n < Pow10(i)
      invariant Decimal(number) == Decimal(n) + digits[i..]
      decreases i
    {
      Pow10Unfolds(i);
      DecimalUnfolds(n);
      var digit: Byte, quotient: nat := 0x30 + n % 10, n / 10;
      ghost var rest := digits[i..];
      ghost var front := if n < 10 then [] else Decimal(quotient);
      assert (front + [digit]) + rest == front + ([digit] + rest);
      i := i - 1;
      digits[i] := digit;
      assert digits[i..] == [digit] + rest;
      n := quotient;
      if n == 0 {
        break;
      }
    }
    printed := digits[i..];
  }

  /** With colon-free names the message determines all three fields. */
  lemma MessageInjective(u: Name, a: Address, e: U64, u': Name, a': Address, e': U64)
    requires COLON !in u && COLON !in u'
    ensures Message(u, a, e) == Message(u', a', e') <==> u == u' && a == a' && e == e'
  {
    if Message(u, a, e) == Message(u', a', e') {
      SplitAtLast(COLON, u + [COLON] + a.strkey, Decimal(e), u' + [COLON] + a'.strkey, Decimal(e'));
      SplitAtFirst(COLON, u, a.strkey, u', a'.strkey);
      assert Value(Decimal(e)) == Value(Decimal(e'));
    }
  }

  /** So it does for any names at all when the strkeys are colon-free, as base-32 strkeys are. */
  lemma MessageInjectiveForStrkeys(u: Name, a: Address, e: U64, u': Name, a': Address, e': U64)
    requires COLON !in a.strkey && COLON !in a'.strkey
    ensures Message(u, a, e) == Message(u', a', e') <==> u == u' && a == a' && e == e'
  {
    if Message(u, a, e) == Message(u', a', e') {
      SplitAtLast(COLON, u + [COLON] + a.strkey, Decimal(e), u' + [COLON] + a'.strkey, Decimal(e'));
      SplitAtLast(COLON, u, a.strkey, u', a'.strkey);
      assert Value(Decimal(e)) == Value(Decimal(e'));
    }
  }

  // ---- proofs ----

  datatype OracleProof = OracleProof(
    oraclePubkey: seq<Byte>,
    message: seq<Byte>,
    signature: seq<Byte>,
    expiresAt: U64)

  datatype ProofError = AddressMismatch | BadLayout | NotAllowlisted | Expired | BadSignature

  predicate IsZeroSignature(sig: seq<Byte>) {
    forall i :: 0 <= i < |sig| ==> sig[i] == 0
  }

  method ScanZeroSignature(sig: seq<Byte>) returns (zero: bool)
    ensures zero == IsZeroSignature(sig)
  {
    var i := 0;
    while i < |sig|
      invariant 0 <= i <= |sig| && forall j :: 0 <= j < i ==> sig[j] == 0
    {
      if sig[i] != 0 {
        return false;
      }
      i := i + 1;
    }
    return true;
  }

  /** What an accepted ownership proof has shown. */
  predicate Vouches(proof: OracleProof, allowlist: set<seq<Byte>>, username: Name, address: Address, now: U64) {
    && proof.message == Message(username, address, proof.expiresAt)
    && proof.oraclePubkey in allowlist
    && (proof.expiresAt == 0 || now <= proof.expiresAt)
    && !IsZeroSignature(proof.signature)
  }

  /**
    The checks of an ownership proof in order. `genuine` is the host's Ed25519
    verdict on the proof's key, message and signature; a forged one aborts.
   */
  method VerifyOwnershipProof(
      allowlist: set<seq<Byte>>, username: Name, address: Address, proof: OracleProof, now: U64, genuine: bool)
    returns (r: Result<bool, ProofError>)
    requires |proof.signature| == 64
    ensures r.Ok? ==> Vouches(proof, allowlist, username, address, now)
    ensures
      var matches := proof.message == Message(username, address, proof.expiresAt);
      var unset := forall i :: 0 <= i < 64 ==> proof.signature[i] == 0;
      var listed, late := proof.oraclePubkey in allowlist, 0 < proof.expiresAt < now;
      var wellFormed := proof.signature[63] < 32;
      && (r == Err(AddressMismatch) <==> !matches)
      && (r == Err(BadLayout) <==> matches && unset)
      && (r == Err(NotAllowlisted) <==> matches && !unset && !listed)
      && (r == Err(Expired) <==> matches && !unset && listed && late)
      && (r == Err(BadSignature) <==> matches && !unset && listed && !late && !(wellFormed && genuine))
      && (r == Ok(true) <==> matches && !unset && listed && !late && wellFormed && genuine)
  {
    var expected := OwnershipMessage(username, address, proof.expiresAt);
    if proof.message != expected {
      return Err(AddressMismatch);
    }
    var zero := ScanZeroSignature(proof.signature);
    if |proof.message| == 0 || zero {
      return Err(BadLayout);
    }
    if proof.oraclePubkey !in allowlist {
      return Err(NotAllowlisted);
    }
    if proof.expiresAt != 0 && now > proof.expiresAt {
      return Err(Expired);
    }
    if proof.signature[63] >= 0x20 {
      return Err(BadSignature);
    }
    if !genuine {
      return Err(BadSignature);
    }
    return Ok(true);
  }

  /** A signed message serves one claim only: not another name or address, nor the same with a moved expiry. */
  lemma ProofServesOneClaim(
      proof: OracleProof, proof': OracleProof, allowlist: set<seq<Byte>>,
      u: Name, a: Address, now: U64, u': Name, a': Address, now': U64)
    requires IsValid(u) && IsValid(u') && proof.message == proof'.message
    requires Vouches(proof, allowlist, u, a, now) && Vouches(proof', allowlist, u', a', now')
    ensures u == u' && a == a' && proof.expiresAt == proof'.expiresAt
  {
    ValidNamesAvoidSeparators(u);
    ValidNamesAvoidSeparators(u');
    MessageInjective(u, a, proof.expiresAt, u', a', proof'.expiresAt);
  }
}
