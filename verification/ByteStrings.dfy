/** Byte strings with a separator, and addresses by their strkey bytes. */
module ByteStrings {
  import opened MachineWords

  /** An account or contract address, identified by the bytes of its strkey. */
  datatype Address = Address(strkey: seq<Byte>)

  /** A prefix without the separator is recovered from the joined string. */
  lemma SplitAtFirst(sep: Byte, a: seq<Byte>, x: seq<Byte>, b: seq<Byte>, y: seq<Byte>)
    requires sep !in a && sep !in b
    requires a + [sep] + x == b + [sep] + y
    ensures a == b && x == y
  {
    var whole := a + [sep] + x;
    assert whole[|a|] == sep && whole[|b|] == sep;
    assert forall k :: 0 <= k < |a| ==> whole[k] == a[k];
    assert forall k :: 0 <= k < |b| ==> whole[k] == b[k];
    assert a == whole[..|a|] && x == whole[|a| + 1..];
  }

  /** So is a suffix without it. */
  lemma SplitAtLast(sep: Byte, a: seq<Byte>, x: seq<Byte>, b: seq<Byte>, y: seq<Byte>)
    requires sep !in x && sep !in y
    requires a + [sep] + x == b + [sep] + y
    ensures a == b && x == y
  {
    var whole := a + [sep] + x;
    assert whole[|a|] == sep && whole[|b|] == sep;
    assert forall k :: |a| < k < |whole| ==> whole[k] == x[k - |a| - 1];
    assert forall k :: |b| < k < |whole| ==> whole[k] == y[k - |b| - 1];
    assert a == whole[..|a|] && x == whole[|a| + 1..];
  }
}
