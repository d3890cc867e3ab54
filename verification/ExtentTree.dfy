/** Reading an extent tree into a list and writing it back (e2fsck/extents.c). */
module ExtentTree {
  import opened Extents
  import opened ExtentEdit

  const EXT_INIT_MAX_LEN: nat := 0x8000
  const EXT_UNINIT_MAX_LEN: nat := 0x7FFF

  // ---- Reading: neighbours are attached to each other ----

  /** The test of load_extents; the length check adds two 32-bit numbers, so it never fails. */
  predicate Attaches(last: Extent, e: Extent) {
    && Wrap64(last.pblk + last.len) == e.pblk
    && Wrap64(last.lblk + last.len) == e.lblk
    && last.uninit == e.uninit
    && Wrap32(last.len + e.len) < 0x1_0000_0000
  }

  function Attach(s: seq<Extent>, e: Extent): seq<Extent> {
    if s != [] && Attaches(s[|s| - 1], e) then
      s[..|s| - 1] + [s[|s| - 1].(len := Wrap32(s[|s| - 1].len + e.len))]
    else s + [e]
  }

  /** The list after reading the leaves `es` into the list `s`. */
  function LoadAll(s: seq<Extent>, es: seq<Extent>): seq<Extent>
    decreases |es|
  {
    if es == [] then s else LoadAll(Attach(s, es[0]), es[1..])
  }

  // ---- Writing: extents longer than the on-disk limit are split ----

  function MaxLen(e: Extent): nat {
    if e.uninit then EXT_UNINIT_MAX_LEN else EXT_INIT_MAX_LEN
  }

  /** The first piece of `e` as it is written: cut to the limit, other flags masked. */
  function Chunk(e: Extent): Extent {
    e.(len := if e.len > MaxLen(e) then MaxLen(e) else e.len, otherFlags := 0)
  }

  /** What is left of an extent after a full piece was written. */
  function Rest(e: Extent): Extent
    requires e.len > MaxLen(e)
  {
    e.(lblk := Wrap64(e.lblk + MaxLen(e)), pblk := Wrap64(e.pblk + MaxLen(e)), len := e.len - MaxLen(e))
  }

  function Split(e: Extent): seq<Extent>
    decreases e.len
  {
    if e.len == 0 then []
    else if e.len > MaxLen(e) then [Chunk(e)] + Split(Rest(e))
    else [Chunk(e)]
  }

  /** The extents inserted into the tree, in order. */
  function Rewritten(s: seq<Extent>): seq<Extent> {
    if s == [] then [] else Split(s[0]) + Rewritten(s[1..])
  }

  /** What the on-disk format can hold: a non-empty piece within the length limit. */
  predicate Writable(e: Extent) {
    0 < e.len <= MaxLen(e) && e.otherFlags == 0
  }

  // ---- Reading a disjoint tree yields the normal form of its map ----

  lemma {:induction false} AttachValue(acc: seq<Extent>, last: Extent, e: Extent)
    requires InRange(last) && InRange(e) && Before(last, e)
    ensures Attach(acc + [last], e) ==
            if Mergeable(last, e) then acc + [Join(last, e)] else (acc + [last]) + [e]
  {
    MergeableValue(last, e);
    assert (acc + [last])[..|acc|] == acc;
  }

  lemma {:induction false} MergedCons(e: Extent, es: seq<Extent>)
    requires es != []
    ensures Merged([e] + es) ==
            if Mergeable(e, es[0]) then Merged([Join(e, es[0])] + es[1..]) else [e] + Merged(es)
  {
    var w := [e] + es;
    assert w[1..] == es && w[2..] == es[1..];
  }

  lemma {:induction false} LoadIsMerge(acc: seq<Extent>, last: Extent, es: seq<Extent>)
    requires WellFormed([last] + es)
    ensures LoadAll(acc + [last], es) == acc + Merged([last] + es)
    decreases |es|
  {
    if es != [] {
      var w := [last] + es;
      assert w[1] == es[0] && Before(w[0], w[1]) && InRange(w[0]) && InRange(w[1]);
      AttachValue(acc, last, es[0]);
      MergedCons(last, es);
      if Mergeable(last, es[0]) {
        var u := JoinFirst(w);
        assert u == [Join(last, es[0])] + es[1..];
        LoadIsMerge(acc, Join(last, es[0]), es[1..]);
      } else {
        TailSorted(w);
        assert w[1..] == es && [es[0]] + es[1..] == es;
        LoadIsMerge(acc + [last], es[0], es[1..]);
        AppendAssoc(acc, last, Merged(es));
      }
    }
  }

  lemma {:induction false} AppendAssoc(acc: seq<Extent>, e: Extent, es: seq<Extent>)
    ensures (acc + [e]) + es == acc + ([e] + es)
  {
  }

  lemma {:induction false} LoadNormal(es: seq<Extent>)
    requires WellFormed(es)
    ensures LoadAll([], es) == Merged(es)
    ensures Normal(LoadAll([], es)) && BlockMap(LoadAll([], es)) == BlockMap(es)
  {
    if es != [] {
      assert Attach([], es[0]) == [] + [es[0]];
      assert es == [es[0]] + es[1..];
      LoadIsMerge([], es[0], es[1..]);
    }
    MergedNormal(es);
    SameMapsSameBlockMap(Merged(es), es);
  }

  // ---- Writing keeps the map ----

  lemma {:induction false} SplitKeeps(e: Extent)
    requires InRangeOrEmpty(e)
    ensures WellFormed(Split(e))
    ensures forall f :: f in Split(e) ==>
              Writable(f) && e.lblk <= f.lblk && f.lblk + f.len <= e.lblk + e.len
    ensures forall b: nat, m :: Maps(Split(e), b, m) <==> Covers(e, b) && At(e, b) == m
    decreases e.len
  {
    if e.len > MaxLen(e) {
      var r := Rest(e);
      SplitKeeps(r);
      SortedConcat([Chunk(e)], Split(r));
      forall b: nat, m ensures Maps(Split(e), b, m) <==> Covers(e, b) && At(e, b) == m {
        MapsCons(Chunk(e), Split(r), b, m);
      }
    } else if e.len > 0 {
      forall b: nat, m ensures Maps(Split(e), b, m) <==> Covers(e, b) && At(e, b) == m {
        MapsCons(Chunk(e), [], b, m);
      }
    }
  }

  lemma {:induction false} RewrittenKeeps(s: seq<Extent>)
    requires Sorted(s)
    ensures WellFormed(Rewritten(s))
    ensures forall f :: f in Rewritten(s) ==> Writable(f)
    ensures forall f :: f in Rewritten(s) ==> s[0].lblk <= f.lblk
    ensures forall b: nat, m :: Maps(Rewritten(s), b, m) <==> Maps(s, b, m)
  {
    if s != [] {
      var e, t := s[0], s[1..];
      TailSorted(s);
      SplitKeeps(e);
      RewrittenKeeps(t);
      forall f | f in Rewritten(t) ensures e.lblk + e.len <= f.lblk {
        assert Before(e, t[0]);
      }
      SortedConcat(Split(e), Rewritten(t));
      assert s == [e] + t;
      forall b: nat, m ensures Maps(Rewritten(s), b, m) <==> Maps(s, b, m) {
        MapsConcat(Split(e), Rewritten(t), b, m);
        MapsCons(e, t, b, m);
      }
    }
  }

  /** The written pieces respect the length limits and denote the same map. */
  lemma {:induction false} RewrittenSameMap(s: seq<Extent>)
    requires Sorted(s)
    ensures WellFormed(Rewritten(s)) && BlockMap(Rewritten(s)) == BlockMap(s)
    ensures forall f :: f in Rewritten(s) ==> Writable(f)
  {
    RewrittenKeeps(s);
    SameMapsSameBlockMap(Rewritten(s), s);
  }

  /** Writing a list and reading it back gives its normal form (up to unrelated flags);
      a list in normal form comes back as it was. */
  lemma {:induction false} RewriteRoundTrip(s: seq<Extent>)
    requires WellFormed(s)
    ensures SameUpToFlags(LoadAll([], Rewritten(s)), Merged(s))
    ensures Normal(s) ==> SameUpToFlags(LoadAll([], Rewritten(s)), s)
  {
    RewrittenSameMap(s);
    LoadNormal(Rewritten(s));
    LoadNormal(s);
    NormalFormOfMap(LoadAll([], Rewritten(s)), Merged(s));
    if Normal(s) {
      NormalFormOfMap(LoadAll([], Rewritten(s)), s);
    }
  }

  // ---- Block-mapped files ----

  /** One callback of the block iterator: a logical block and where it lies, or, with a negative
      count, a block that only holds addresses. */
  datatype Found = Found(blockcnt: int, blocknr: nat)

  function Unit(f: Found): Extent
    requires f.blockcnt >= 0
  {
    Extent(f.blockcnt, f.blocknr, 1, false, 0)
  }

  function Units(fs: seq<Found>): seq<Extent> {
    if fs == [] then [] else (if fs[0].blockcnt >= 0 then [Unit(fs[0])] else []) + Units(fs[1..])
  }

  /** The blocks that hold addresses, in order. */
  function AddressBlocks(fs: seq<Found>): seq<nat> {
    if fs == [] then [] else (if fs[0].blockcnt < 0 then [fs[0].blocknr] else []) + AddressBlocks(fs[1..])
  }

  function AttachBlock(s: seq<Extent>, f: Found): seq<Extent> {
    if f.blockcnt < 0 then s
    else if s != [] then
      var last := s[|s| - 1];
      if Wrap64(last.lblk + last.len) == f.blockcnt && Wrap64(last.pblk + last.len) == f.blocknr
         && Wrap32(last.len + 1) < 0x1_0000_0000 then
        s[..|s| - 1] + [last.(len := Wrap32(last.len + 1))]
      else s + [Unit(f)]
    else s + [Unit(f)]
  }

  function FindBlocks(s: seq<Extent>, fs: seq<Found>): seq<Extent>
    decreases |fs|
  {
    if fs == [] then s else FindBlocks(AttachBlock(s, fs[0]), fs[1..])
  }

  /** The logical blocks come in order and in the address ranges; address blocks may come between. */
  predicate Increasing(fs: seq<Found>) {
    && (forall i :: 0 <= i < |fs| && fs[i].blockcnt >= 0 ==>
          fs[i].blockcnt < 0xFFFF_FFFF && fs[i].blocknr < 0xFFFF_FFFF_FFFF_FFFF)
    && (forall i, j :: 0 <= i < j < |fs| && 0 <= fs[i].blockcnt && 0 <= fs[j].blockcnt ==>
          fs[i].blockcnt < fs[j].blockcnt)
  }

  lemma {:induction false} FindIsLoad(s: seq<Extent>, fs: seq<Found>)
    requires forall e :: e in s ==> !e.uninit
    ensures FindBlocks(s, fs) == LoadAll(s, Units(fs))
    decreases |fs|
  {
    if fs != [] {
      var t := AttachBlock(s, fs[0]);
      assert s != [] ==> s[|s| - 1] in s;
      FindIsLoad(t, fs[1..]);
      if fs[0].blockcnt >= 0 {
        assert t == Attach(s, Unit(fs[0]));
        LoadCons(s, Unit(fs[0]), Units(fs[1..]));
      } else {
        assert Units(fs) == Units(fs[1..]);
      }
    }
  }

  lemma {:induction false} LoadCons(s: seq<Extent>, e: Extent, es: seq<Extent>)
    ensures LoadAll(s, [e] + es) == LoadAll(Attach(s, e), es)
  {
    assert ([e] + es)[1..] == es;
  }

  lemma {:induction false} UnitsFound(fs: seq<Found>, e: Extent)
    ensures e in Units(fs) <==> exists i :: 0 <= i < |fs| && fs[i].blockcnt >= 0 && e == Unit(fs[i])
  {
    if fs != [] {
      UnitsFound(fs[1..], e);
      if i :| 0 <= i < |fs| && fs[i].blockcnt >= 0 && e == Unit(fs[i]) {
        if i > 0 { assert fs[1..][i - 1] == fs[i]; }
      }
      if e in Units(fs[1..]) {
        var i :| 0 <= i < |fs[1..]| && fs[1..][i].blockcnt >= 0 && e == Unit(fs[1..][i]);
        assert fs[i + 1] == fs[1..][i];
      }
    }
  }

  lemma {:induction false} UnitsWellFormed(fs: seq<Found>)
    requires Increasing(fs)
    ensures WellFormed(Units(fs))
  {
    if fs != [] {
      var t := fs[1..];
      assert forall i :: 0 <= i < |t| ==> t[i] == fs[i + 1];
      UnitsWellFormed(t);
      if fs[0].blockcnt >= 0 {
        var e := Unit(fs[0]);
        forall f | f in Units(t) ensures Before(e, f) {
          UnitsFound(t, f);
          var i :| 0 <= i < |t| && t[i].blockcnt >= 0 && f == Unit(t[i]);
          assert t[i] == fs[i + 1];
        }
        SortedCons(e, Units(t));
      }
    }
  }

  ghost predicate Reported(fs: seq<Found>, b: nat, m: Mapped) {
    exists i :: 0 <= i < |fs| && fs[i].blockcnt == b && m == Mapped(fs[i].blocknr, false)
  }

  lemma {:induction false} UnitsMap(fs: seq<Found>, b: nat, m: Mapped)
    ensures Maps(Units(fs), b, m) <==> Reported(fs, b, m)
  {
    if i :| 0 <= i < |fs| && fs[i].blockcnt == b && m == Mapped(fs[i].blocknr, false) {
      UnitsFound(fs, Unit(fs[i]));
      assert Covers(Unit(fs[i]), b) && At(Unit(fs[i]), b) == m;
    }
    if Maps(Units(fs), b, m) {
      var e :| e in Units(fs) && Covers(e, b) && At(e, b) == m;
      UnitsFound(fs, e);
      var i :| 0 <= i < |fs| && fs[i].blockcnt >= 0 && e == Unit(fs[i]);
      assert fs[i].blockcnt == b && m == Mapped(fs[i].blocknr, false);
    }
  }

  /** Rebuilding a block-mapped file: the extents found map exactly the blocks the iterator
      reported, and they are in normal form; the blocks that held addresses are in none of this. */
  lemma {:induction false} FindBlocksMap(fs: seq<Found>, b: nat, m: Mapped)
    requires Increasing(fs)
    ensures Normal(FindBlocks([], fs))
    ensures b in BlockMap(FindBlocks([], fs)) && BlockMap(FindBlocks([], fs))[b] == m <==>
            Reported(fs, b, m)
  {
    FindIsLoad([], fs);
    UnitsWellFormed(fs);
    LoadNormal(Units(fs));
    BlockMapMaps(Units(fs), b, m);
    UnitsMap(fs, b, m);
  }
}
