/**
  The paged form of the username index: pages of at most fifty names, kept in
  numbered slots, next to the flat sequence the pages are meant to spell.
 */
module ChunkedIndex {
  import opened Cardinality
  import opened MachineWords
  import opened Usernames

  const CHUNK_SIZE := 50

  type Chunks = map<nat, seq<Name>>

  /** A missing slot reads as an empty page. */
  function Page(chunks: Chunks, c: nat): seq<Name> {
    if c in chunks then chunks[c] else []
  }

  /** Pages `0..cnt` read one after the other. */
  function Flatten(chunks: Chunks, cnt: nat): seq<Name> {
    if cnt == 0 then [] else Flatten(chunks, cnt - 1) + Page(chunks, cnt - 1)
  }

  /** Every counted page is stored, none past the count is, and none is over-full. */
  ghost predicate WellPaged(chunks: Chunks, cnt: nat) {
    && (forall c: nat :: c in chunks <==> c < cnt)
    && (forall c: nat :: c in chunks ==> |chunks[c]| <= CHUNK_SIZE)
  }

  lemma HalvesAreDisjoint(a: seq<Name>, b: seq<Name>)
    requires NoDuplicates(a + b)
    ensures NoDuplicates(a) && NoDuplicates(b)
    ensures forall x :: x in a ==> x !in b
  {
    var whole := a + b;
    assert forall i :: 0 <= i < |a| ==> whole[i] == a[i];
    assert forall i :: 0 <= i < |b| ==> whole[|a| + i] == b[i];
  }

  // ---- removal from a sequence ----

  function Without(s: seq<Name>, x: Name): (r: seq<Name>)
    ensures |r| <= |s|
    ensures x !in s ==> r == s
    ensures forall y :: y in r <==> y in s && y != x
  {
    if s == [] then []
    else
      var front := Without(s[..|s| - 1], x);
      if s[|s| - 1] == x then front else front + [s[|s| - 1]]
  }

  lemma {:induction false} WithoutItself(x: Name)
    ensures Without([x], x) == []
  {
    assert [x][..0] == [];
  }

  lemma {:induction false} WithoutConcat(a: seq<Name>, b: seq<Name>, x: Name)
    ensures Without(a + b, x) == Without(a, x) + Without(b, x)
  {
    if b == [] {
      assert a + b == a;
    } else {
      assert (a + b)[..|a + b| - 1] == a + b[..|b| - 1];
      WithoutConcat(a, b[..|b| - 1], x);
    }
  }

  /** Removing from a list without repeats drops exactly one position and keeps the order of the rest. */
  lemma {:induction false} WithoutOnce(s: seq<Name>, k: nat)
    requires NoDuplicates(s) && k < |s|
    ensures Without(s, s[k]) == s[..k] + s[k + 1..]
    ensures NoDuplicates(s[..k] + s[k + 1..])
  {
    hide Without;
    var a, x, b := s[..k], s[k], s[k + 1..];
    assert s == a + [x] + b;
    WithoutConcat(a + [x], b, x);
    WithoutConcat(a, [x], x);
    HalvesAreDisjoint(a + [x], b);
    HalvesAreDisjoint(a, [x]);
    assert x in a + [x] && x !in b && x !in a;
    WithoutItself(x);
    assert Without(s, x) == a + [] + b;
  }

  // ---- the three mutations of the pages ----

  /** Appending fills the last page, or opens a new one when that page is full or there is none. */
  function Appended(chunks: Chunks, cnt: nat, name: Name): (r: (Chunks, nat)) {
    if cnt == 0 then (chunks[0 := [name]], 1)
    else if |Page(chunks, cnt - 1)| >= CHUNK_SIZE then (chunks[cnt := [name]], cnt + 1)
    else (chunks[cnt - 1 := Page(chunks, cnt - 1) + [name]], cnt)
  }

  /** The first counted page holding `name`, or the count when none does. */
  function FirstWith(chunks: Chunks, cnt: nat, name: Name): (c: nat)
    ensures c <= cnt
    ensures c < cnt ==> name in Page(chunks, c)
    ensures forall d :: 0 <= d < c ==> name !in Page(chunks, d)
  {
    if cnt == 0 then 0
    else
      var c := FirstWith(chunks, cnt - 1, name);
      if c < cnt - 1 then c
      else if name in Page(chunks, cnt - 1) then cnt - 1 else cnt
  }

  /** Removal rewrites only the first page that holds the name, and may leave it short or empty. */
  function Removed(chunks: Chunks, cnt: nat, name: Name): Chunks {
    var c := FirstWith(chunks, cnt, name);
    if c < cnt then chunks[c := Without(Page(chunks, c), name)] else chunks
  }

  function SlotsBelow(k: nat): (ks: set<nat>)
    ensures forall c: nat :: c in ks <==> c < k
  {
    if k == 0 then {} else SlotsBelow(k - 1) + {k - 1}
  }

  function PagesFor(n: nat): nat {
    (n + CHUNK_SIZE - 1) / CHUNK_SIZE
  }

  /** Page `c` of a densely packed index. */
  function PackedPage(index: seq<Name>, c: nat): seq<Name>
    requires c < PagesFor(|index|)
  {
    index[CHUNK_SIZE * c..Min(CHUNK_SIZE * c + CHUNK_SIZE, |index|)]
  }

  /** Packed pages from zero, old pages dropped up to the old count, anything beyond left alone. */
  function Compacted(chunks: Chunks, cnt: nat, index: seq<Name>): Chunks {
    var k := PagesFor(|index|);
    map c | c in chunks.Keys + SlotsBelow(k) && (c < k || c >= cnt) ::
      if c < k then PackedPage(index, c) else chunks[c]
  }

  // ---- the pages spell the flat index ----

  lemma {:induction false} FlattenDependsOnPages(a: Chunks, b: Chunks, cnt: nat)
    requires forall c :: 0 <= c < cnt ==> Page(a, c) == Page(b, c)
    ensures Flatten(a, cnt) == Flatten(b, cnt)
  {
    if cnt > 0 {
      FlattenDependsOnPages(a, b, cnt - 1);
    }
  }

  /** From any pages at all, appending appends. */
  lemma {:induction false} FlattenAppended(chunks: Chunks, cnt: nat, name: Name)
    ensures Flatten(Appended(chunks, cnt, name).0, Appended(chunks, cnt, name).1) == Flatten(chunks, cnt) + [name]
  {
    var chunks', cnt' := Appended(chunks, cnt, name).0, Appended(chunks, cnt, name).1;
    FlattenDependsOnPages(chunks, chunks', cnt' - 1);
    assert Flatten(chunks', cnt') == Flatten(chunks, cnt' - 1) + Page(chunks', cnt' - 1);
    if cnt' == cnt {
      assert Flatten(chunks, cnt) == Flatten(chunks, cnt - 1) + Page(chunks, cnt - 1);
    }
  }

  lemma AppendedKeepsPages(chunks: Chunks, cnt: nat, name: Name)
    requires WellPaged(chunks, cnt)
    ensures WellPaged(Appended(chunks, cnt, name).0, Appended(chunks, cnt, name).1)
  {
  }

  lemma {:induction false} InFlatten(chunks: Chunks, cnt: nat, name: Name)
    ensures name in Flatten(chunks, cnt) <==> FirstWith(chunks, cnt, name) < cnt
  {
    if cnt > 0 {
      InFlatten(chunks, cnt - 1, name);
    }
  }

  /** Entry `i` of page `c` sits that far past the pages before it. */
  lemma PositionInFlatten(chunks: Chunks, cnt: nat, c: nat)
    requires c < cnt
    ensures |Flatten(chunks, c + 1)| == |Flatten(chunks, c)| + |Page(chunks, c)| <= |Flatten(chunks, cnt)|
    ensures forall i: nat :: i < |Page(chunks, c)| ==>
              Flatten(chunks, cnt)[|Flatten(chunks, c)| + i] == Page(chunks, c)[i]
  {
    if c + 1 < cnt {
      PositionInFlatten(chunks, cnt - 1, c);
    }
  }

  /** No counted page past the first one that holds the name holds it too. */
  ghost predicate OnOnePage(chunks: Chunks, cnt: nat, name: Name) {
    forall d: nat :: FirstWith(chunks, cnt, name) < d < cnt ==> name !in Page(chunks, d)
  }

  /** Stopping at the first page removes the name from the whole list exactly when no later page repeats it. */
  lemma {:induction false} FlattenRemovedExactly(chunks: Chunks, cnt: nat, name: Name)
    ensures Flatten(Removed(chunks, cnt, name), cnt) == Without(Flatten(chunks, cnt), name)
            <==> OnOnePage(chunks, cnt, name)
    ensures WellPaged(chunks, cnt) ==> WellPaged(Removed(chunks, cnt, name), cnt)
  {
    hide Without, Flatten;
    var c, chunks' := FirstWith(chunks, cnt, name), Removed(chunks, cnt, name);
    InFlatten(chunks, cnt, name);
    if OnOnePage(chunks, cnt, name) {
      if c < cnt {
        FlattenRewritten(chunks, cnt, name, c);
      }
    } else {
      var d: nat :| c < d < cnt && name in Page(chunks, d);
      InPageInFlatten(chunks', cnt, d, name);
    }
  }

  lemma {:induction false} InPageInFlatten(chunks: Chunks, cnt: nat, d: nat, name: Name)
    requires d < cnt && name in Page(chunks, d)
    ensures name in Flatten(chunks, cnt)
  {
    hide Flatten;
    PositionInFlatten(chunks, cnt, d);
    var i :| 0 <= i < |Page(chunks, d)| && Page(chunks, d)[i] == name;
    assert Flatten(chunks, cnt)[|Flatten(chunks, d)| + i] == name;
  }

  lemma FlattenRewritten(chunks: Chunks, cnt: nat, name: Name, c: nat)
    requires c < cnt && forall d: nat :: d < cnt && name in Page(chunks, d) ==> d == c
    ensures Flatten(chunks[c := Without(Page(chunks, c), name)], cnt) == Without(Flatten(chunks, cnt), name)
  {
    hide Without;
    var chunks' := chunks[c := Without(Page(chunks, c), name)];
    var front, last := Flatten(chunks, cnt - 1), Page(chunks, cnt - 1);
    WithoutConcat(front, last, name);
    if c == cnt - 1 {
      FlattenDependsOnPages(chunks, chunks', cnt - 1);
      InFlatten(chunks, cnt - 1, name);
      assert Without(front, name) == front;
    } else {
      FlattenRewritten(chunks, cnt - 1, name, c);
      assert Without(last, name) == last;
    }
  }

  lemma {:induction false} PagesInOrder(chunks: Chunks, c: nat, d: nat)
    requires c <= d
    ensures |Flatten(chunks, c)| <= |Flatten(chunks, d)|
  {
    if c < d {
      PagesInOrder(chunks, c, d - 1);
    }
  }

  lemma {:induction false} RepeatIsDuplicate(chunks: Chunks, cnt: nat, c: nat, d: nat, name: Name)
    requires c < d < cnt && name in Page(chunks, c) && name in Page(chunks, d)
    ensures !NoDuplicates(Flatten(chunks, cnt))
  {
    hide Flatten;
    PositionInFlatten(chunks, cnt, c);
    PositionInFlatten(chunks, cnt, d);
    PagesInOrder(chunks, c + 1, d);
    var i :| 0 <= i < |Page(chunks, c)| && Page(chunks, c)[i] == name;
    var j :| 0 <= j < |Page(chunks, d)| && Page(chunks, d)[j] == name;
    assert Flatten(chunks, cnt)[|Flatten(chunks, c)| + i] == Flatten(chunks, cnt)[|Flatten(chunks, d)| + j];
  }

  /** So it is enough when no name is listed twice. */
  lemma {:induction false} FlattenRemoved(chunks: Chunks, cnt: nat, name: Name)
    requires NoDuplicates(Flatten(chunks, cnt))
    ensures Flatten(Removed(chunks, cnt, name), cnt) == Without(Flatten(chunks, cnt), name)
    ensures WellPaged(chunks, cnt) ==> WellPaged(Removed(chunks, cnt, name), cnt)
  {
    hide Without, Flatten, NoDuplicates;
    FlattenRemovedExactly(chunks, cnt, name);
    var c := FirstWith(chunks, cnt, name);
    forall d: nat | c < d < cnt
      ensures name !in Page(chunks, d)
    {
      if name in Page(chunks, d) {
        RepeatIsDuplicate(chunks, cnt, c, d, name);
      }
    }
  }

  /** Compaction spells the flat index, whatever the pages were before. */
  lemma FlattenCompacted(chunks: Chunks, cnt: nat, index: seq<Name>)
    ensures Flatten(Compacted(chunks, cnt, index), PagesFor(|index|)) == index
  {
    FlattenPacked(Compacted(chunks, cnt, index), index, PagesFor(|index|));
  }

  lemma {:induction false} FlattenPacked(chunks: Chunks, index: seq<Name>, k: nat)
    requires k <= PagesFor(|index|)
    requires forall c :: 0 <= c < k ==> Page(chunks, c) == PackedPage(index, c)
    ensures Flatten(chunks, k) == index[..Min(CHUNK_SIZE * k, |index|)]
  {
    if k > 0 {
      FlattenPacked(chunks, index, k - 1);
    }
  }

  /** Packed pages are all full but the last, which is not empty. */
  lemma PackedPagesAreFull(chunks: Chunks, cnt: nat, index: seq<Name>, c: nat)
    requires c < PagesFor(|index|)
    ensures var page := Page(Compacted(chunks, cnt, index), c);
            if c + 1 < PagesFor(|index|) then |page| == 50 else 0 < |page| <= 50
  {
  }

  /**
    Pages that only ever grew are packed as compaction would pack them: an
    append to packed pages opens a new page exactly when the last holds fifty.
   */
  lemma AppendKeepsPacked(index: seq<Name>, name: Name)
    ensures var packed := Appended(Compacted(map[], 0, index), PagesFor(|index|), name);
            && packed.1 == PagesFor(|index| + 1)
            && packed.0 == Compacted(map[], 0, index + [name])
  {
    hide PackedPage, PagesFor;
    var k, longer := PagesFor(|index|), index + [name];
    PackedPageCount(index);
    forall c: nat | c < PagesFor(|longer|)
      ensures PackedPage(longer, c) == if c < k then PackedPageAfter(index, name, c) else [name]
    {
      PackedPageGrows(index, name, c);
    }
  }

  function PackedPageAfter(index: seq<Name>, name: Name, c: nat): seq<Name>
    requires c < PagesFor(|index|)
  {
    var page := PackedPage(index, c);
    if c + 1 == PagesFor(|index|) && |page| < CHUNK_SIZE then page + [name] else page
  }

  lemma PackedPageCount(index: seq<Name>)
    ensures var k := PagesFor(|index|);
            PagesFor(|index| + 1) == if k == 0 || |PackedPage(index, k - 1)| >= CHUNK_SIZE then k + 1 else k
  {
  }

  lemma PackedPageGrows(index: seq<Name>, name: Name, c: nat)
    requires c < PagesFor(|index| + 1)
    ensures PackedPage(index + [name], c) ==
            if c < PagesFor(|index|) then PackedPageAfter(index, name, c) else [name]
  {
  }

  /** No page survives at or past the new count exactly when none was stored past the old one as well. */
  lemma NoStalePages(chunks: Chunks, cnt: nat, index: seq<Name>)
    ensures WellPaged(Compacted(chunks, cnt, index), PagesFor(|index|))
            <==> (forall c: nat :: c in chunks && c >= cnt ==> c < PagesFor(|index|))
  {
    hide PagesFor;
    var k, packed := PagesFor(|index|), Compacted(chunks, cnt, index);
    forall c | c in packed && c < k
      ensures |packed[c]| <= CHUNK_SIZE
    {
      PackedPagesAreFull(chunks, cnt, index, c);
    }
    if stale: nat :| stale in chunks && stale >= cnt && stale >= k {
      assert stale in packed;
    }
  }
}
