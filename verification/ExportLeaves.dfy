/** Contributor records and the Merkle leaf each export entry hashes to. */
module ExportLeaves {
  import opened ByteStrings
  import opened MachineWords
  import opened MerkleTree
  import opened Usernames

  /** The burn address nobody can sign for. */
  const ZERO_ADDRESS := Address(Ascii("GAAAAAAAAAAAAAAAAAAAAAAAAAAAAAAAAAAAAAAAAAAAAAAAAAAAAWHF"))

  datatype Record = Record(
    stellarAddress: Address,
    payoutAddress: Address,
    registeredAt: U32,
    verified: bool,
    isBot: bool)

  type ExportRecord = (Name, Record)

  const FIELD_SEPARATOR: Byte := 0

  function Flag(verified: bool): Byte {
    if verified then 1 else 0
  }

  function LeafHash(username: Name, address: Address, verified: bool): Hash {
    Leaf(username + [FIELD_SEPARATOR] + address.strkey + [Flag(verified)])
  }

  function LeafOf(entry: ExportRecord): Hash {
    LeafHash(entry.0, entry.1.stellarAddress, entry.1.verified)
  }

  function LeavesOf(records: seq<ExportRecord>): (hs: seq<Hash>)
    ensures |hs| == |records| && AllLeaves(hs)
  {
    seq(|records|, i requires 0 <= i < |records| => LeafOf(records[i]))
  }

  /** The root published with a page. */
  function PageRoot(records: seq<ExportRecord>): Hash {
    TreeRoot(LeavesOf(records))
  }

  method RootOfRecords(records: seq<ExportRecord>) returns (root: Hash)
    ensures root == PageRoot(records)
  {
    var leaves: seq<Hash> := [];
    for i := 0 to |records|
      invariant |leaves| == i
      invariant forall j :: 0 <= j < i ==> leaves[j] == LeafOf(records[j])
    {
      leaves := leaves + [LeafOf(records[i])];
    }
    assert leaves == LeavesOf(records);
    root := RootOf(leaves);
  }

  /**
    The bytes of a leaf by position: the name as exported, one zero byte, the
    identity address's strkey, and a last byte of one exactly for a verified
    record. A page of one entry has that leaf for its root.
   */
  lemma LeafLayout(entry: ExportRecord)
    ensures var root, name, strkey := PageRoot([entry]), entry.0, entry.1.stellarAddress.strkey;
            && root.Leaf? && |root.preimage| == |name| + |strkey| + 2
            && root.preimage[..|name|] == name
            && root.preimage[|name|] == 0
            && root.preimage[|name| + 1..|name| + 1 + |strkey|] == strkey
            && (if entry.1.verified then root.preimage[|root.preimage| - 1] == 1
                else root.preimage[|root.preimage| - 1] == 0)
  {
    assert LeavesOf([entry]) == [LeafOf(entry)];
  }

  /** A page's root is the tree over its entries' own leaves, in page order. */
  lemma {:induction false} PageRootIsTreeOfEntries(records: seq<ExportRecord>, leaves: seq<Hash>)
    requires |leaves| == |records| && forall i :: 0 <= i < |records| ==> leaves[i] == PageRoot([records[i]])
    ensures PageRoot(records) == TreeRoot(leaves)
  {
    forall i | 0 <= i < |records|
      ensures leaves[i] == LeavesOf(records)[i]
    {
      assert LeavesOf([records[i]]) == [LeafOf(records[i])];
    }
    assert leaves == LeavesOf(records);
  }

  /** What a leaf attests to: the name, the identity address and the verification flag. */
  function Attested(entry: ExportRecord): (Name, Address, bool) {
    (entry.0, entry.1.stellarAddress, entry.1.verified)
  }

  function AllAttested(records: seq<ExportRecord>): (a: seq<(Name, Address, bool)>)
    ensures |a| == |records|
  {
    seq(|records|, i requires 0 <= i < |records| => Attested(records[i]))
  }

  /** The field layout parses back uniquely when names avoid the separator byte. */
  lemma LeafHashInjective(u: Name, a: Address, v: bool, u': Name, a': Address, v': bool)
    requires FIELD_SEPARATOR !in u && FIELD_SEPARATOR !in u'
    ensures LeafHash(u, a, v) == LeafHash(u', a', v') <==> u == u' && a == a' && v == v'
  {
    if LeafHash(u, a, v) == LeafHash(u', a', v') {
      assert u + [FIELD_SEPARATOR] + a.strkey + [Flag(v)] == u + [FIELD_SEPARATOR] + (a.strkey + [Flag(v)]);
      assert u' + [FIELD_SEPARATOR] + a'.strkey + [Flag(v')] == u' + [FIELD_SEPARATOR] + (a'.strkey + [Flag(v')]);
      var tail, tail' := a.strkey + [Flag(v)], a'.strkey + [Flag(v')];
      SplitAtFirst(FIELD_SEPARATOR, u, tail, u', tail');
      assert tail[|tail| - 1] == tail'[|tail'| - 1] && tail[..|tail| - 1] == tail'[..|tail'| - 1];
    }
  }

  predicate NamesAreValid(records: seq<ExportRecord>) {
    forall i :: 0 <= i < |records| ==> IsValid(records[i].0)
  }

  /** Two pages of valid names share a root exactly when they attest to the same list, length included. */
  lemma PageRootBindsRecords(p: seq<ExportRecord>, q: seq<ExportRecord>)
    requires NamesAreValid(p) && NamesAreValid(q)
    ensures PageRoot(p) == PageRoot(q) <==> AllAttested(p) == AllAttested(q)
  {
    RootBindsLeaves(LeavesOf(p), LeavesOf(q));
    if LeavesOf(p) == LeavesOf(q) {
      forall i | 0 <= i < |p|
        ensures Attested(p[i]) == Attested(q[i])
      {
        EntryBound(p[i], q[i], LeavesOf(p)[i], LeavesOf(q)[i]);
      }
      assert |p| == |LeavesOf(q)|;
      assert AllAttested(p) == AllAttested(q);
    } else if AllAttested(p) == AllAttested(q) {
      assert |p| == |AllAttested(q)| == |q|;
      forall i | 0 <= i < |p|
        ensures LeavesOf(p)[i] == LeavesOf(q)[i]
      {
        assert AllAttested(p)[i] == Attested(q[i]);
      }
      assert false;
    }
  }

  lemma EntryBound(e: ExportRecord, e': ExportRecord, h: Hash, h': Hash)
    requires h == LeafOf(e) && h' == LeafOf(e') && IsValid(e.0) && IsValid(e'.0)
    ensures h == h' <==> Attested(e) == Attested(e')
  {
    LeafHashInjective(e.0, e.1.stellarAddress, e.1.verified, e'.0, e'.1.stellarAddress, e'.1.verified);
  }
}
