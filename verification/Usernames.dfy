/**
  GitHub usernames as byte strings: the validity rules, the canonical
  (ASCII-lowercased) storage key, and the case-insensitive comparison.
 */
module Usernames {
  import opened MachineWords
  import opened Utf8

  type Name = seq<Byte>

  const MAX_USERNAME_LEN := 39
  const USERNAME_BUF := 64

  const HYPHEN: Byte := 0x2D
  const UNDERSCORE: Byte := 0x5F
  const COLON: Byte := 0x3A

  predicate IsUpper(b: Byte) {
    0x41 <= b <= 0x5A
  }

  predicate IsAlphanumeric(b: Byte) {
    0x30 <= b <= 0x39 || IsUpper(b) || 0x61 <= b <= 0x7A
  }

  // ---- validity ----

  predicate HyphenPairAt(s: Name, i: nat) {
    i + 1 < |s| && s[i] == HYPHEN && s[i + 1] == HYPHEN
  }

  /** GitHub's rules, read as properties of the whole string. */
  predicate IsValid(s: Name) {
    && 1 <= |s| <= MAX_USERNAME_LEN
    && IsAlphanumeric(s[0]) && IsAlphanumeric(s[|s| - 1])
    && (forall i :: 0 <= i < |s| ==> IsAlphanumeric(s[i]) || s[i] == HYPHEN || s[i] == UNDERSCORE)
    && (forall i :: 0 <= i < |s| ==> !HyphenPairAt(s, i))
  }

  method IsValidGithubUsername(s: Name) returns (ok: bool)
    ensures ok == IsValid(s)
  {
    if |s| > MAX_USERNAME_LEN {
      return false;
    }
    if |s| == 0 || |s| > USERNAME_BUF {
      return false;
    }
    if !IsAlphanumeric(s[0]) || !IsAlphanumeric(s[|s| - 1]) {
      return false;
    }
    var prevWasHyphen := false;
    var i := 0;
    while i < |s|
      invariant 0 <= i <= |s|
      invariant forall j :: 0 <= j < i ==> IsAlphanumeric(s[j]) || s[j] == HYPHEN || s[j] == UNDERSCORE
      invariant forall j :: 0 <= j < i - 1 ==> !HyphenPairAt(s, j)
      invariant prevWasHyphen == (i > 0 && s[i - 1] == HYPHEN)
    {
      var b := s[i];
      if b >= 0x80 {
        return false;
      }
      if b == HYPHEN {
        if prevWasHyphen {
          assert HyphenPairAt(s, i - 1);
          return false;
        }
        prevWasHyphen := true;
      } else {
        prevWasHyphen := false;
        if !IsAlphanumeric(b) && b != UNDERSCORE {
          return false;
        }
      }
      i := i + 1;
    }
    return true;
  }

  // ---- canonical form ----

  function LowerByte(b: Byte): Byte {
    if IsUpper(b) then b + 0x20 else b
  }

  function Lower(s: seq<Byte>): (r: seq<Byte>)
    ensures |r| == |s|
  {
    seq(|s|, i requires 0 <= i < |s| => LowerByte(s[i]))
  }

  /** The storage key of a username: folded when it fits the stack buffer and is text, else itself. */
  function Canon(s: Name): (r: Name)
    ensures |r| == |s|
  {
    if |s| == 0 || |s| > USERNAME_BUF then s
    else if IsUtf8(Lower(s)) then Lower(s)
    else s
  }

  method CanonicalizeUsername(s: Name) returns (r: Name)
    ensures r == Canon(s)
  {
    var len := |s|;
    if len == 0 || len > USERNAME_BUF {
      return s;
    }
    var buf := new Byte[USERNAME_BUF](_ => 0);
    forall i | 0 <= i < len {
      buf[i] := s[i];
    }
    var i := 0;
    while i < len
      invariant 0 <= i <= len
      invariant forall j :: 0 <= j < i ==> buf[j] == LowerByte(s[j])
      invariant forall j :: i <= j < len ==> buf[j] == s[j]
    {
      buf[i] := LowerByte(buf[i]);
      i := i + 1;
    }
    assert buf[..len] == Lower(s);
    if IsUtf8(buf[..len]) {
      return buf[..len];
    }
    return s;
  }

  /** ASCII folding keeps UTF-8 well-formedness, in both directions. */
  lemma {:induction false} LowerKeepsUtf8(s: seq<Byte>)
    ensures IsUtf8(Lower(s)) == IsUtf8(s)
  {
    if s != [] {
      var l := Lower(s);
      assert l[1..] == Lower(s[1..]);
      LowerKeepsUtf8(s[1..]);
      if |s| >= 2 {
        assert l[2..] == Lower(s[2..]);
        LowerKeepsUtf8(s[2..]);
      }
      if |s| >= 3 {
        assert l[3..] == Lower(s[3..]);
        LowerKeepsUtf8(s[3..]);
      }
      if |s| >= 4 {
        assert l[4..] == Lower(s[4..]);
        LowerKeepsUtf8(s[4..]);
      }
    }
  }

  /** Folding twice is folding once, on every byte string. */
  lemma CanonIdempotent(s: Name)
    ensures Canon(Canon(s)) == Canon(s)
  {
    assert Lower(Lower(s)) == Lower(s);
  }

  /** A valid name folds to a valid name, and folding it is exactly ASCII lowering. */
  lemma {:induction false} CanonOfValid(s: Name)
    requires IsValid(s)
    ensures IsValid(Canon(s)) && Canon(s) == Lower(s) && IsUtf8(s)
  {
    AsciiIsUtf8(s);
    LowerKeepsUtf8(s);
    var l := Lower(s);
    forall i | 0 <= i < |l|
      ensures !HyphenPairAt(l, i)
    {
      assert !HyphenPairAt(s, i);
    }
  }

  /** Valid names hold neither the Merkle field separator nor the message separator. */
  lemma ValidNamesAvoidSeparators(s: Name)
    requires IsValid(s)
    ensures 0 !in s && COLON !in s
  {
  }

  // ---- which bytes are folded ----

  /** The two cases of one letter. */
  predicate AreCasesOfOneLetter(x: Byte, y: Byte) {
    (0x41 <= x <= 0x5A && y == x + 0x20) || (0x41 <= y <= 0x5A && x == y + 0x20)
  }

  /** The key of a text that fits the buffer has no upper-case letter; every other byte is as it was spelt. */
  lemma {:induction false} CanonFoldsLetters(s: Name, i: nat)
    requires IsUtf8(s) && |s| <= 64 && i < |s|
    ensures var b, folded := s[i], Canon(s)[i];
            && !(0x41 <= folded <= 0x5A)
            && (if 0x41 <= b <= 0x5A then folded == b + 0x20 else folded == b)
  {
    LowerKeepsUtf8(s);
  }

  /** Anything else is its own key. */
  lemma {:induction false} CanonKeepsOthers(s: Name)
    ensures |s| > 64 || !IsUtf8(s) ==> Canon(s) == s
  {
    LowerKeepsUtf8(s);
  }

  /** Two texts that fit the buffer share a key exactly when they differ at most in the case of letters. */
  lemma {:induction false} SameKeyExactly(a: Name, b: Name)
    requires IsUtf8(a) && IsUtf8(b) && |a| <= 64 && |b| <= 64
    ensures Canon(a) == Canon(b) <==>
            |a| == |b| && forall i :: 0 <= i < |a| ==> a[i] == b[i] || AreCasesOfOneLetter(a[i], b[i])
  {
    LowerKeepsUtf8(a);
    LowerKeepsUtf8(b);
    if |a| == |b| == 0 {
      assert a == b;
    }
    if |a| == |b| {
      assert forall i :: 0 <= i < |a| ==>
        (Lower(a)[i] == Lower(b)[i] <==> a[i] == b[i] || AreCasesOfOneLetter(a[i], b[i]));
    }
  }

  // ---- which names are valid ----

  predicate IsLetterOrDigit(c: char) {
    '0' <= c <= '9' || 'A' <= c <= 'Z' || 'a' <= c <= 'z'
  }

  /**
    GitHub's rules by the characters themselves: one to 39 of them, letters,
    digits, hyphens and underscores, a letter or digit at both ends, and no two
    hyphens in a row.
   */
  lemma ValidNamesExactly(s: Name)
    ensures IsValid(s) <==>
            && 1 <= |s| <= 39
            && (forall i :: 0 <= i < |s| ==>
                  IsLetterOrDigit(s[i] as char) || s[i] as char == '-' || s[i] as char == '_')
            && IsLetterOrDigit(s[0] as char) && IsLetterOrDigit(s[|s| - 1] as char)
            && (forall i, j :: 0 <= i < j < |s| && j == i + 1 ==> !(s[i] as char == s[j] as char == '-'))
  {
    forall b: Byte
      ensures IsAlphanumeric(b) <==> IsLetterOrDigit(b as char)
      ensures (b == HYPHEN <==> b as char == '-') && (b == UNDERSCORE <==> b as char == '_')
    {
    }
    assert forall i :: 0 <= i < |s| - 1 ==> (HyphenPairAt(s, i) <==> s[i] as char == s[i + 1] as char == '-');
  }

  // ---- case-insensitive comparison ----

  predicate EqIgnoreCase(a: Name, b: Name) {
    |a| == |b| && |a| <= USERNAME_BUF && Lower(a) == Lower(b)
  }

  method EqIgnoreAsciiCase(a: Name, b: Name) returns (eq: bool)
    ensures eq == EqIgnoreCase(a, b)
  {
    if |a| != |b| {
      return false;
    }
    if |a| == 0 {
      return true;
    }
    if |a| > USERNAME_BUF || |b| > USERNAME_BUF {
      return false;
    }
    var i := 0;
    while i < |a|
      invariant 0 <= i <= |a|
      invariant forall j :: 0 <= j < i ==> LowerByte(a[j]) == LowerByte(b[j])
    {
      if LowerByte(a[i]) != LowerByte(b[i]) {
        assert Lower(a)[i] != Lower(b)[i];
        return false;
      }
      i := i + 1;
    }
    return true;
  }

  /** On text, the comparison is equality of storage keys exactly up to the 64-byte buffer. */
  lemma {:induction false} EqIgnoreCaseIsCanonEquality(a: Name, b: Name)
    requires IsUtf8(a) && IsUtf8(b)
    ensures EqIgnoreCase(a, b) <==> Canon(a) == Canon(b) && |a| <= USERNAME_BUF
  {
    LowerKeepsUtf8(a);
    LowerKeepsUtf8(b);
    if |a| == |b| == 0 {
      assert a == b;
    }
  }

  /** Past the buffer the two disagree on every name: each keeps its key and matches nothing. */
  lemma LongNamesMatchNothing(a: Name)
    ensures |a| > USERNAME_BUF <==> !EqIgnoreCase(a, a)
    ensures |a| > USERNAME_BUF ==> Canon(a) == a
  {
  }

  /** Against a valid name the two agree for every byte string whatever. */
  lemma EqIgnoreCaseAgainstValid(v: Name, u: Name)
    requires IsValid(v)
    ensures EqIgnoreCase(v, u) <==> Canon(v) == Canon(u)
  {
    CanonOfValid(v);
    LowerKeepsUtf8(u);
    if Lower(v) == Lower(u) {
      forall i | 0 <= i < |u|
        ensures u[i] < 0x80
      {
        assert Lower(v)[i] == LowerByte(u[i]);
      }
      AsciiIsUtf8(u);
    }
  }
}
