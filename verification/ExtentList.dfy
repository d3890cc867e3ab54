/** The extent list of the replay state and the methods that edit it in place
    (e2fsck/journal.c, e2fsck/extents.c). */
module ExtentLists {
  import opened Extents
  import opened ExtentEdit
  import opened ExtentTree
  import opened ExtentUnsafe

  /** A block bitmap: the set of the blocks whose bit is set. */
  class Bitmap {
    var bits: set<nat>

    constructor ()
      ensures bits == {}
    {
      bits := {};
    }

    method UnmarkRange(e: Extent)
      modifies this
      ensures bits == old(bits) - Phys(e)
    {
      bits := bits - Phys(e);
    }

    method MarkRange(e: Extent)
      modifies this
      ensures bits == old(bits) + Phys(e)
    {
      bits := bits + Phys(e);
    }
  }

  /** What the tree walk of load_extents sees. */
  datatype Visit = Leaf(extent: Extent) | Internal(pblk: nat) | SecondVisit

  function Leaves(vs: seq<Visit>): seq<Extent> {
    if vs == [] then []
    else (if vs[0].Leaf? then [vs[0].extent] else []) + Leaves(vs[1..])
  }

  function Internals(vs: seq<Visit>): seq<nat> {
    if vs == [] then []
    else (if vs[0].Internal? then [vs[0].pblk] else []) + Internals(vs[1..])
  }

  ghost predicate OrderedBy(key: Extent -> int, t: seq<Extent>) {
    forall i, j :: 0 <= i < j < |t| ==> key(t[i]) <= key(t[j])
  }

  method InsertOrdered(key: Extent -> int, t: seq<Extent>, e: Extent) returns (r: seq<Extent>)
    requires OrderedBy(key, t)
    ensures OrderedBy(key, r) && multiset(r) == multiset(t) + multiset{e}
  {
    var k := 0;
    while k < |t| && key(t[k]) <= key(e)
      invariant 0 <= k <= |t|
      invariant forall i :: 0 <= i < k ==> key(t[i]) <= key(e)
    {
      k := k + 1;
    }
    assert t == t[..k] + t[k..];
    r := t[..k] + [e] + t[k..];
    InsertedOrdered(key, t, k, e);
  }

  lemma {:induction false} InsertedOrdered(key: Extent -> int, t: seq<Extent>, k: nat, e: Extent)
    requires OrderedBy(key, t) && k <= |t|
    requires forall i :: 0 <= i < k ==> key(t[i]) <= key(e)
    requires k < |t| ==> key(e) <= key(t[k])
    ensures OrderedBy(key, t[..k] + [e] + t[k..])
  {
    var r := t[..k] + [e] + t[k..];
    forall i, j | 0 <= i < j < |r| ensures key(r[i]) <= key(r[j]) {
      if j > k {
        assert r[j] == t[j - 1] && key(t[k]) <= key(t[j - 1]);
      }
      if i > k {
        assert r[i] == t[i - 1];
      }
    }
  }

  /** qsort: some permutation ordered by the key. */
  method Qsort(key: Extent -> int, s: seq<Extent>) returns (t: seq<Extent>)
    ensures multiset(t) == multiset(s) && OrderedBy(key, t)
  {
    t := [];
    for n := 0 to |s|
      invariant multiset(t) == multiset(s[..n]) && OrderedBy(key, t)
    {
      assert s[..n + 1] == s[..n] + [s[n]];
      t := InsertOrdered(key, t, s[n]);
    }
    assert s[..|s|] == s;
  }

  function ByLength(e: Extent): int { 0 - e.len }

  function ByLblk(e: Extent): int { e.lblk }

  class ExtentList {
    var ino: nat
    var extents: seq<Extent>
    var blocksFreed: seq<nat>

    constructor ()
      ensures ino == 0 && extents == [] && blocksFreed == []
    {
      ino, extents, blocksFreed := 0, [], [];
    }

    /** The list after memset: no inode, no extents. */
    method Clear()
      modifies this
      ensures ino == 0 && extents == [] && blocksFreed == []
    {
      ino, extents, blocksFreed := 0, [], [];
    }

    /** Opens a slot at index `i`; what it holds is left over from the move. */
    method MakeRoom(i: nat)
      requires i <= |extents|
      modifies this`extents
      ensures |extents| == |old(extents)| + 1
      ensures extents[..i] == old(extents)[..i] && extents[i + 1..] == old(extents)[i..]
    {
      var slot := if i < |extents| then extents[i] else Extent(0, 0, 0, false, 0);
      extents := extents[..i] + [slot] + extents[i..];
    }

    /** Sort by descending length and cut the empty extents off the end. */
    method StripEmpty()
      modifies this`extents
      ensures forall e :: multiset(extents)[e] == if e.len > 0 then multiset(old(extents))[e] else 0
    {
      extents := Qsort(ByLength, extents);
      var i := 0;
      while i < |extents|
        invariant 0 <= i <= |extents|
        invariant multiset(extents) == multiset(old(extents))
        invariant OrderedBy(ByLength, extents)
        invariant forall k :: 0 <= k < i ==> extents[k].len > 0
      {
        if extents[i].len == 0 {
          CutEmpty(extents, i);
          extents := extents[..i];
          return;
        }
        i := i + 1;
      }
      CutEmpty(extents, |extents|);
      assert extents[..|extents|] == extents;
    }

    /** ex_sort_and_merge */
    method SortAndMerge()
      modifies this`extents
      ensures SortMerge(old(extents), extents)
    {
      if |extents| < 2 {
        return;
      }
      StripEmpty();
      if |extents| == 0 {
        assert StrippedAndSorted(old(extents), extents);
        return;
      }
      extents := Qsort(ByLblk, extents);
      ghost var t := extents;
      assert InLblkOrder(t) by {
        forall i, j | 0 <= i < j < |t| ensures t[i].lblk <= t[j].lblk {
          assert ByLblk(t[i]) <= ByLblk(t[j]);
        }
      }
      assert StrippedAndSorted(old(extents), t);
      MergeNeighbours();
    }

    /** The merge loop: an extent that absorbed its neighbour is compared again. */
    method MergeNeighbours()
      requires extents != []
      modifies this`extents
      ensures extents == Merged(old(extents))
    {
      var i := 0;
      ghost var done, todo := [], extents;
      while i < |extents| - 1
        invariant extents == done + todo && |done| == i < |extents|
        invariant Merged(old(extents)) == done + Merged(todo)
        decreases |extents| - i
      {
        MergedStep(done, todo);
        if !Mergeable(extents[i], extents[i + 1]) {
          done, todo := done + [todo[0]], todo[1..];
          i := i + 1;
        } else {
          JoinAt(done, todo);
          extents := extents[..i] + [Join(extents[i], extents[i + 1])] + extents[i + 2..];
          todo := [Join(todo[0], todo[1])] + todo[2..];
        }
      }
    }

    /** One round of the hole loop, at index `i`; `stop` is its `break`. */
    method CutExtent(i: nat, x: Extent, blockMap: Bitmap) returns (stop: bool)
      requires i < |extents|
      modifies this`extents, blockMap
      ensures stop == Stops(old(extents)[i], x)
      ensures extents == old(extents)[..i] + Pieces(old(extents)[i], x) + old(extents)[i + 1..]
      ensures blockMap.bits == old(blockMap.bits)
                               - if Misses(old(extents)[i], x) then {} else Phys(old(extents)[i])
    {
      var e := extents[i];
      if ExEnd(e) < x.lblk {
        return false;
      }
      if e.lblk > ExEnd(x) {
        return true;
      }
      blockMap.UnmarkRange(e);
      if e.lblk < x.lblk && ExEnd(e) > ExEnd(x) {
        MakeRoom(i + 1);
        SplitAt(old(extents), extents, i, KeepFront(e, x), KeepBack(e, x));
        extents := extents[i + 1 := KeepBack(e, x)][i := KeepFront(e, x)];
        return true;
      }
      if x.lblk <= e.lblk && ExEnd(e) <= ExEnd(x) {
        extents := extents[i := e.(len := 0)];
        return false;
      }
      if ExEnd(e) > ExEnd(x) {
        extents := extents[i := KeepBack(e, x)];
        return true;
      }
      // Here the range starts behind the start of `e`, so the other arm of the source's
      // conditional (length 0) is never taken.
      extents := extents[i := KeepFront(e, x)];
      return false;
    }

    /** The hole loop of ext4_modify_extent_list: cut the range `x` out of every extent. */
    method PunchHole(x: Extent, blockMap: Bitmap)
      modifies this`extents, blockMap
      ensures extents == Punch(old(extents), x)
      ensures blockMap.bits == old(blockMap.bits) - Unmarked(old(extents), x)
    {
      var i := 0;
      ghost var done, todo := [], extents;
      while i < |extents|
        invariant extents == done + todo && |done| == i
        invariant Punch(old(extents), x) == done + Punch(todo, x)
        invariant old(blockMap.bits) - Unmarked(old(extents), x) == blockMap.bits - Unmarked(todo, x)
        decreases |todo|
      {
        PunchStep(done, todo, x);
        var stop := CutExtent(i, x, blockMap);
        if stop {
          return;
        }
        done, todo := done + Pieces(todo[0], x), todo[1..];
        i := i + 1;
      }
    }

    method MarkAll(blockMap: Bitmap)
      modifies blockMap
      ensures blockMap.bits == old(blockMap.bits) + PhysAll(extents)
    {
      for i := 0 to |extents|
        invariant blockMap.bits == old(blockMap.bits) + PhysAll(extents[..i])
      {
        PhysAllConcat(extents[..i], [extents[i]]);
        assert extents[..i + 1] == extents[..i] + [extents[i]];
        blockMap.MarkRange(extents[i]);
      }
      assert extents[..|extents|] == extents;
    }

    /** ext4_modify_extent_list */
    method ModifyRange(x: Extent, del: bool, blockMap: Bitmap)
      modifies this`extents, blockMap
      ensures Modify(old(extents), x, del, extents)
      ensures blockMap.bits == old(blockMap.bits) - Unmarked(old(extents), x) + PhysAll(extents)
      ensures Editable(old(extents)) && RangeOk(x, del) ==>
                && (BlockMap(extents) == Update(BlockMap(old(extents)), x, del) <==> Safe(old(extents), x))
                && (Safe(old(extents), x) ==> Normal(extents) || LoneEmpty(extents))
    {
      hide Editable, RangeOk, Safe, BlockMap, Update, Modify, Punch, Unmarked, PhysAll, Normal, LoneEmpty;
      PunchHole(x, blockMap);
      if x.len > 0 && !del {
        ghost var p := extents;
        MakeRoom(|extents|);
        extents := extents[|extents| - 1 := x];
        assert extents == p + [x];
      }
      assert extents == WithAdded(old(extents), x, del);
      SortAndMerge();
      MarkAll(blockMap);
      Modified(old(extents), x, del, extents);
    }

    /** load_extents on an empty list: internal nodes are freed, leaves attached. */
    method Load(tree: seq<Visit>)
      modifies this`extents, this`blocksFreed
      ensures extents == LoadAll([], Leaves(tree))
      ensures blocksFreed == Internals(tree)
      ensures WellFormed(Leaves(tree)) ==>
                Normal(extents) && BlockMap(extents) == BlockMap(Leaves(tree))
    {
      extents, blocksFreed := [], [];
      ghost var todo := tree;
      for n := 0 to |tree|
        invariant todo == tree[n..]
        invariant LoadAll([], Leaves(tree)) == LoadAll(extents, Leaves(todo))
        invariant Internals(tree) == blocksFreed + Internals(todo)
      {
        var v := tree[n];
        VisitStep(extents, blocksFreed, todo);
        todo := todo[1..];
        if v.SecondVisit? {
          continue;
        }
        if v.Internal? {
          blocksFreed := blocksFreed + [v.pblk];
          continue;
        }
        extents := AttachLeaf(extents, v.extent);
      }
      if WellFormed(Leaves(tree)) {
        LoadNormal(Leaves(tree));
      }
    }

    /** find_blocks, one callback: an address block is freed, a data block attached. */
    method FindBlock(f: Found)
      modifies this`extents, this`blocksFreed
      ensures extents == AttachBlock(old(extents), f)
      ensures blocksFreed == if f.blockcnt < 0 then old(blocksFreed) + [f.blocknr] else old(blocksFreed)
    {
      if f.blockcnt < 0 {
        blocksFreed := blocksFreed + [f.blocknr];
        return;
      }
      if |extents| > 0 {
        var last := extents[|extents| - 1];
        if Wrap64(last.lblk + last.len) == f.blockcnt && Wrap64(last.pblk + last.len) == f.blocknr
           && Wrap32(last.len + 1) < 0x1_0000_0000 {
          extents := extents[|extents| - 1 := last.(len := Wrap32(last.len + 1))];
          return;
        }
      }
      extents := extents + [Unit(f)];
    }

    /** The walk over the blocks of a block-mapped file: the blocks that held addresses are freed,
        and the list maps exactly the data blocks. */
    method CollectBlocks(fs: seq<Found>)
      modifies this`extents, this`blocksFreed
      ensures extents == FindBlocks([], fs) && blocksFreed == AddressBlocks(fs)
      ensures Increasing(fs) ==>
                Normal(extents) && forall b: nat, m :: b in BlockMap(extents) && BlockMap(extents)[b] == m <==>
                                                       Reported(fs, b, m)
    {
      hide FindBlocks, AddressBlocks, AttachBlock, Increasing, Reported, BlockMap, Normal;
      extents, blocksFreed := [], [];
      for n := 0 to |fs|
        invariant FindBlocks([], fs) == FindBlocks(extents, fs[n..])
        invariant AddressBlocks(fs) == blocksFreed + AddressBlocks(fs[n..])
      {
        FindStep(extents, blocksFreed, fs, n);
        FindBlock(fs[n]);
      }
      FindEnd(extents, fs);
      if Increasing(fs) {
        forall b: nat, m ensures b in BlockMap(extents) && BlockMap(extents)[b] == m <==> Reported(fs, b, m) {
          FindBlocksMap(fs, b, m);
        }
        FindBlocksMap(fs, 0, Mapped(0, false));
      }
    }

    /** rewrite_extent_replay: the list is consumed in place; an index that was split is
        visited again. */
    method Rewrite() returns (tree: seq<Extent>)
      modifies this`extents
      ensures tree == Rewritten(old(extents))
      ensures Sorted(old(extents)) ==>
                && WellFormed(tree) && BlockMap(tree) == BlockMap(old(extents))
                && forall e :: e in tree ==> Writable(e)
    {
      hide Rewritten, Chunk, Rest, MaxLen, Sorted, BlockMap, Writable, WellFormed;
      tree := [];
      var i := 0;
      while i < |extents|
        invariant 0 <= i <= |extents|
        invariant Rewritten(old(extents)) == tree + Rewritten(extents[i..])
        decreases |extents| - i, if i < |extents| then extents[i].len else 0
      {
        var e := extents[i];
        assert extents[i..] == [e] + extents[i + 1..];
        if e.len == 0 {
          RewrittenNothing(e, extents[i + 1..]);
          i := i + 1;
          continue;
        }
        RewrittenStep(tree, e, extents[i + 1..]);
        tree := tree + [Chunk(e)];
        if e.len > MaxLen(e) {
          assert extents[i := Rest(e)][i..] == [Rest(e)] + extents[i + 1..];
          extents := extents[i := Rest(e)];
        } else {
          i := i + 1;
        }
      }
      NothingRewritten();
      if Sorted(old(extents)) {
        RewrittenSameMap(old(extents));
      }
    }
  }

  lemma {:induction false} Modified(s: seq<Extent>, x: Extent, del: bool, r: seq<Extent>)
    requires SortMerge(WithAdded(s, x, del), r)
    ensures Modify(s, x, del, r)
    ensures Editable(s) && RangeOk(x, del) ==>
              && (BlockMap(r) == Update(BlockMap(s), x, del) <==> Safe(s, x))
              && (Safe(s, x) ==> Normal(r) || LoneEmpty(r))
  {
    hide Editable, RangeOk, Safe, BlockMap, Update, Normal, LoneEmpty, SortMerge;
    if Editable(s) && RangeOk(x, del) {
      ModifyExact(s, x, del, r);
      if Safe(s, x) {
        ModifyIsUpdate(s, x, del, r);
      }
    }
  }

  /** An entry replaced by two, behind which room was made. */
  lemma {:induction false} SplitAt(es: seq<Extent>, more: seq<Extent>, i: nat, front: Extent, back: Extent)
    requires i < |es| && |more| == |es| + 1 && more[..i + 1] == es[..i + 1] && more[i + 2..] == es[i + 1..]
    ensures more[i + 1 := back][i := front] == es[..i] + [front, back] + es[i + 1..]
  {
    var r := more[i + 1 := back][i := front];
    assert more[..i] == more[..i + 1][..i] == es[..i];
    assert r == r[..i] + [front, back] + r[i + 2..];
  }

  lemma {:induction false} FindStep(s: seq<Extent>, freed: seq<nat>, fs: seq<Found>, n: nat)
    requires n < |fs|
    ensures FindBlocks(s, fs[n..]) == FindBlocks(AttachBlock(s, fs[n]), fs[n + 1..])
    ensures freed + AddressBlocks(fs[n..]) ==
            (if fs[n].blockcnt < 0 then freed + [fs[n].blocknr] else freed) + AddressBlocks(fs[n + 1..])
  {
    hide AttachBlock;
    var todo := fs[n..];
    assert todo[0] == fs[n] && todo[1..] == fs[n + 1..];
    var rest := AddressBlocks(fs[n + 1..]);
    assert freed + ([fs[n].blocknr] + rest) == (freed + [fs[n].blocknr]) + rest;
  }

  lemma {:induction false} FindEnd(s: seq<Extent>, fs: seq<Found>)
    ensures FindBlocks(s, fs[|fs|..]) == s && AddressBlocks(fs[|fs|..]) == []
  {
  }

  lemma {:induction false} MergedStep(done: seq<Extent>, todo: seq<Extent>)
    requires |todo| >= 2
    ensures done + Merged(todo) ==
            if Mergeable(todo[0], todo[1]) then done + Merged([Join(todo[0], todo[1])] + todo[2..])
            else (done + [todo[0]]) + Merged(todo[1..])
  {
    assert done + ([todo[0]] + Merged(todo[1..])) == (done + [todo[0]]) + Merged(todo[1..]);
  }

  lemma {:induction false} JoinAt(done: seq<Extent>, todo: seq<Extent>)
    requires |todo| >= 2
    ensures var es, i := done + todo, |done|;
            && es[i] == todo[0] && es[i + 1] == todo[1]
            && es[..i] + [Join(es[i], es[i + 1])] + es[i + 2..]
               == done + ([Join(todo[0], todo[1])] + todo[2..])
  {
    assert (done + todo)[|done| + 2..] == todo[2..];
  }

  lemma {:induction false} PunchStep(done: seq<Extent>, todo: seq<Extent>, x: Extent)
    requires todo != []
    ensures done + Punch(todo, x) ==
            (done + Pieces(todo[0], x)) + if Stops(todo[0], x) then todo[1..] else Punch(todo[1..], x)
  {
  }

  lemma {:induction false} VisitStep(s: seq<Extent>, freed: seq<nat>, vs: seq<Visit>)
    requires vs != []
    ensures LoadAll(s, Leaves(vs)) ==
            LoadAll(if vs[0].Leaf? then Attach(s, vs[0].extent) else s, Leaves(vs[1..]))
    ensures freed + Internals(vs) ==
            (if vs[0].Internal? then freed + [vs[0].pblk] else freed) + Internals(vs[1..])
  {
    hide Attach;
    var es := Leaves(vs[1..]);
    if vs[0].Leaf? {
      assert Leaves(vs) == [vs[0].extent] + es;
      assert ([vs[0].extent] + es)[1..] == es;
    } else {
      assert Leaves(vs) == es;
    }
    InternalsStep(freed, vs);
  }

  lemma {:induction false} InternalsStep(freed: seq<nat>, vs: seq<Visit>)
    requires vs != []
    ensures freed + Internals(vs) ==
            (if vs[0].Internal? then freed + [vs[0].pblk] else freed) + Internals(vs[1..])
  {
    hide Leaves;
    var rest := Internals(vs[1..]);
    if vs[0].Internal? {
      assert freed + ([vs[0].pblk] + rest) == (freed + [vs[0].pblk]) + rest;
    } else {
      assert Internals(vs) == rest;
    }
  }

  lemma {:induction false} RewrittenCons(e: Extent, es: seq<Extent>)
    ensures Rewritten([e] + es) == Split(e) + Rewritten(es)
  {
    hide Split;
    assert ([e] + es)[1..] == es;
  }

  lemma {:induction false} RewrittenNothing(e: Extent, es: seq<Extent>)
    requires e.len == 0
    ensures Rewritten([e] + es) == Rewritten(es)
  {
    RewrittenCons(e, es);
  }

  lemma {:induction false} RestShorter(e: Extent)
    ensures e.len > MaxLen(e) ==> Rest(e).len < e.len
  {
  }

  lemma {:induction false} NothingRewritten()
    ensures Rewritten([]) == []
  {
  }

  lemma {:induction false} RewrittenStep(tree: seq<Extent>, e: Extent, es: seq<Extent>)
    requires e.len > 0
    ensures tree + Rewritten([e] + es) ==
            (tree + [Chunk(e)]) + if e.len > MaxLen(e) then Rewritten([Rest(e)] + es) else Rewritten(es)
    ensures e.len > MaxLen(e) ==> Rest(e).len < e.len
  {
    RestShorter(e);
    hide Rewritten, Chunk, Rest, MaxLen;
    RewrittenCons(e, es);
    if e.len > MaxLen(e) {
      RewrittenCons(Rest(e), es);
      assert Split(e) == [Chunk(e)] + Split(Rest(e));
    } else {
      assert Split(e) == [Chunk(e)];
    }
  }

  /** Attach a leaf to the last extent if it continues it, else append it. */
  method AttachLeaf(s: seq<Extent>, e: Extent) returns (r: seq<Extent>)
    ensures r == Attach(s, e)
  {
    if |s| > 0 {
      var last := s[|s| - 1];
      if Attaches(last, e) {
        return s[..|s| - 1] + [last.(len := Wrap32(last.len + e.len))];
      }
    }
    return s + [e];
  }

  lemma {:induction false} PhysAllConcat(s: seq<Extent>, t: seq<Extent>)
    ensures PhysAll(s + t) == PhysAll(s) + PhysAll(t)
  {
    if s == [] {
      assert s + t == t;
    } else {
      PhysAllConcat(s[1..], t);
      assert (s + t)[1..] == s[1..] + t;
    }
  }

  lemma {:induction false} CutEmpty(s: seq<Extent>, n: nat)
    requires n <= |s| && (n < |s| ==> s[n].len == 0)
    requires OrderedBy(ByLength, s)
    requires forall k :: 0 <= k < n ==> s[k].len > 0
    ensures forall e :: multiset(s[..n])[e] == if e.len > 0 then multiset(s)[e] else 0
  {
    assert s == s[..n] + s[n..];
    forall e ensures multiset(s[..n])[e] == if e.len > 0 then multiset(s)[e] else 0 {
      if e.len > 0 { assert e !in s[n..]; } else { assert e !in s[..n]; }
    }
  }
}
