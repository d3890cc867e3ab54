/** Extents and what a list of them means.

    An extent maps a run of logical blocks of a file to a run of physical blocks.
    The machine widths of `struct ext2fs_extent` (64-bit block numbers, a 32-bit
    length) are kept: every sum the C code stores is passed through the wrap-around
    functions below. */
module Extents {

  // The wrap-around functions are "modulo 2^n"; the first branch is the value the
  // modulus has on an argument that already fits.
  function Wrap64(x: int): nat {
    if 0 <= x < 0x1_0000_0000_0000_0000 then x else x % 0x1_0000_0000_0000_0000
  }

  function Wrap32(x: int): nat {
    if 0 <= x < 0x1_0000_0000 then x else x % 0x1_0000_0000
  }

  /** Conversion to a signed 32-bit `int`. */
  function ToInt32(x: int): int {
    if -0x8000_0000 <= x < 0x8000_0000 then x
    else (x + 0x8000_0000) % 0x1_0000_0000 - 0x8000_0000
  }

  /** `uninit` is EXT2_EXTENT_FLAGS_UNINIT; `otherFlags` stands for the remaining bits. */
  datatype Extent = Extent(lblk: nat, pblk: nat, len: nat, uninit: bool, otherFlags: nat)

  /** What one logical block is mapped to. */
  datatype Mapped = Mapped(pblk: nat, uninit: bool)

  function ExEnd(e: Extent): nat {
    Wrap64(e.lblk + e.len - 1)
  }

  function ExPend(e: Extent): nat {
    Wrap64(e.pblk + e.len - 1)
  }

  predicate Covers(e: Extent, b: nat) {
    e.lblk <= b < e.lblk + e.len
  }

  function At(e: Extent, b: nat): Mapped
    requires Covers(e, b)
  {
    Mapped(e.pblk + (b - e.lblk), e.uninit)
  }

  /** Some extent of `s` maps logical block `b` to `m`. */
  ghost predicate Maps(s: seq<Extent>, b: nat, m: Mapped) {
    exists e :: e in s && Covers(e, b) && At(e, b) == m
  }

  function ExtentMap(e: Extent): map<nat, Mapped> {
    map b: nat | e.lblk <= b < e.lblk + e.len :: At(e, b)
  }

  /** The partial map from logical blocks that a list of extents stands for. */
  function BlockMap(s: seq<Extent>): map<nat, Mapped> {
    if s == [] then map[] else ExtentMap(s[0]) + BlockMap(s[1..])
  }

  /** A non-empty extent whose block numbers stay inside the on-disk address ranges. */
  predicate InRange(e: Extent) {
    0 < e.len && e.lblk + e.len < 0x1_0000_0000 && e.pblk + e.len < 0x1_0000_0000_0000_0000
  }

  /** Like InRange, but the extent may have been emptied. */
  predicate InRangeOrEmpty(e: Extent) {
    e.lblk + e.len < 0x1_0000_0000 && e.pblk + e.len < 0x1_0000_0000_0000_0000
  }

  predicate Before(e: Extent, f: Extent) {
    e.lblk + e.len <= f.lblk
  }

  /** In logical order and disjoint; some extents may be empty. */
  predicate Sorted(s: seq<Extent>) {
    && (forall i :: 0 <= i < |s| ==> InRangeOrEmpty(s[i]))
    && (forall i, j :: 0 <= i < j < |s| ==> Before(s[i], s[j]))
  }

  /** A well-formed list: in logical order, disjoint, no empty extent. */
  predicate WellFormed(s: seq<Extent>) {
    Sorted(s) && forall i :: 0 <= i < |s| ==> 0 < s[i].len
  }

  /** The test that joins neighbours: contiguous both logically and physically, same state. */
  predicate Mergeable(a: Extent, b: Extent) {
    && Wrap64(ExEnd(a) + 1) == b.lblk
    && Wrap64(ExPend(a) + 1) == b.pblk
    && a.uninit == b.uninit
  }

  /** A well-formed list in which no two neighbours could be joined. */
  predicate Normal(s: seq<Extent>) {
    WellFormed(s) && forall i :: 0 <= i < |s| - 1 ==> !Mergeable(s[i], s[i + 1])
  }

  /** Equality that ignores the flag bits other than UNINIT. */
  predicate SameUpToFlags(s: seq<Extent>, t: seq<Extent>) {
    && |s| == |t|
    && forall i :: 0 <= i < |s| ==> s[i].(otherFlags := 0) == t[i].(otherFlags := 0)
  }

  // ---- The relation Maps and the map BlockMap ----

  lemma {:induction false} MapsCons(e: Extent, s: seq<Extent>, b: nat, m: Mapped)
    ensures Maps([e] + s, b, m) <==> (Covers(e, b) && At(e, b) == m) || Maps(s, b, m)
  {
    if Maps(s, b, m) {
      var f :| f in s && Covers(f, b) && At(f, b) == m;
      assert f in [e] + s;
    }
    if Covers(e, b) && At(e, b) == m {
      assert e in [e] + s;
    }
  }

  lemma {:induction false} MapsConcat(s: seq<Extent>, t: seq<Extent>, b: nat, m: Mapped)
    ensures Maps(s + t, b, m) <==> Maps(s, b, m) || Maps(t, b, m)
  {
    if Maps(s, b, m) {
      var f :| f in s && Covers(f, b) && At(f, b) == m;
      assert f in s + t;
    }
    if Maps(t, b, m) {
      var f :| f in t && Covers(f, b) && At(f, b) == m;
      assert f in s + t;
    }
  }

  /** The keys of the map are the covered blocks, for any list at all. */
  lemma {:induction false} BlockMapKeys(s: seq<Extent>, b: nat)
    ensures b in BlockMap(s) <==> exists e :: e in s && Covers(e, b)
  {
    if s != [] {
      BlockMapKeys(s[1..], b);
      assert s == [s[0]] + s[1..];
      if b in BlockMap(s) {
        if b in ExtentMap(s[0]) {
          assert s[0] in s && Covers(s[0], b);
        } else {
          var e :| e in s[1..] && Covers(e, b);
          assert e in s;
        }
      }
    }
  }

  /** In a disjoint list the map agrees with every covering extent. */
  lemma {:induction false} BlockMapMaps(s: seq<Extent>, b: nat, m: Mapped)
    requires Sorted(s)
    ensures Maps(s, b, m) <==> b in BlockMap(s) && BlockMap(s)[b] == m
  {
    if s != [] {
      var t := s[1..];
      BlockMapMaps(t, b, m);
      assert s == [s[0]] + t;
      MapsCons(s[0], t, b, m);
      if Covers(s[0], b) {
        BlockMapKeys(t, b);
        forall f | f in t ensures !Covers(f, b) {
          var j :| 0 <= j < |t| && t[j] == f;
          assert Before(s[0], s[j + 1]);
        }
        assert b !in BlockMap(t);
        assert b in ExtentMap(s[0]);
      }
    }
  }

  /** Lists that map the same blocks to the same places stand for the same map. */
  lemma {:induction false} SameMapsSameBlockMap(s: seq<Extent>, t: seq<Extent>)
    requires Sorted(s) && Sorted(t)
    requires forall b: nat, m :: Maps(s, b, m) <==> Maps(t, b, m)
    ensures BlockMap(s) == BlockMap(t)
  {
    forall b | b in BlockMap(s) ensures b in BlockMap(t) && BlockMap(t)[b] == BlockMap(s)[b] {
      BlockMapMaps(s, b, BlockMap(s)[b]);
      BlockMapMaps(t, b, BlockMap(s)[b]);
    }
    forall b | b in BlockMap(t) ensures b in BlockMap(s) {
      BlockMapMaps(s, b, BlockMap(t)[b]);
      BlockMapMaps(t, b, BlockMap(t)[b]);
    }
  }

  // ---- Normal forms are unique ----

  lemma {:induction false} TailMaps(s: seq<Extent>, b: nat, m: Mapped)
    requires WellFormed(s) && s != []
    ensures Maps(s[1..], b, m) <==> Maps(s, b, m) && s[0].lblk + s[0].len <= b
  {
    assert s == [s[0]] + s[1..];
    MapsCons(s[0], s[1..], b, m);
    if Maps(s[1..], b, m) {
      var f :| f in s[1..] && Covers(f, b) && At(f, b) == m;
      var j :| 1 <= j < |s| && s[j] == f;
      assert Before(s[0], s[j]);
    }
  }

  /** The block right behind the first extent, if mapped, is where the second one starts. */
  lemma {:induction false} BehindHead(s: seq<Extent>, m: Mapped)
    requires WellFormed(s) && s != []
    requires Maps(s, s[0].lblk + s[0].len, m)
    ensures |s| > 1 && s[1].lblk == s[0].lblk + s[0].len && At(s[1], s[1].lblk) == m
  {
    var c := s[0].lblk + s[0].len;
    var f :| f in s && Covers(f, c) && At(f, c) == m;
    var j :| 0 <= j < |s| && s[j] == f;
    assert Before(s[0], s[1]);
    if j > 1 { assert Before(s[1], s[j]); }
  }

  /** The first extent of one normal list is not shorter than that of another with the same map. */
  lemma {:induction false} HeadNotShorter(s: seq<Extent>, t: seq<Extent>)
    requires Normal(s) && Normal(t) && s != [] && t != []
    requires forall b: nat, m :: Maps(s, b, m) <==> Maps(t, b, m)
    requires s[0].lblk == t[0].lblk && s[0].pblk == t[0].pblk && s[0].uninit == t[0].uninit
    ensures s[0].len >= t[0].len
  {
    var c := s[0].lblk + s[0].len;
    assert |s| > 1 ==> !Mergeable(s[0], s[0 + 1]);
    if Covers(t[0], c) {
      assert Maps(t, c, At(t[0], c));
      BehindHead(s, At(t[0], c));
    }
  }

  lemma {:induction false} HeadMapped(s: seq<Extent>, t: seq<Extent>)
    requires WellFormed(s) && WellFormed(t) && s != []
    requires forall b: nat, m :: Maps(s, b, m) <==> Maps(t, b, m)
    ensures t != [] && t[0].lblk <= s[0].lblk
  {
    assert Covers(s[0], s[0].lblk);
    assert Maps(s, s[0].lblk, At(s[0], s[0].lblk));
    var f :| f in t && Covers(f, s[0].lblk);
    var j :| 0 <= j < |t| && t[j] == f;
    if j != 0 { assert Before(t[0], t[j]); }
  }

  /** Two normal lists with the same map are the same list, up to unrelated flag bits. */
  lemma {:induction false} NormalFormUnique(s: seq<Extent>, t: seq<Extent>)
    requires Normal(s) && Normal(t)
    requires forall b: nat, m :: Maps(s, b, m) <==> Maps(t, b, m)
    ensures SameUpToFlags(s, t)
    decreases |s|
  {
    if s == [] {
      if t != [] { HeadMapped(t, s); }
    } else {
      HeadMapped(s, t);
      HeadMapped(t, s);
      var b := s[0].lblk;
      assert Covers(s[0], b) && Covers(t[0], b);
      assert Maps(s, b, At(s[0], b));
      var f :| f in t && Covers(f, b) && At(f, b) == At(s[0], b);
      var j :| 0 <= j < |t| && t[j] == f;
      assert j != 0 ==> Before(t[0], t[j]);
      HeadNotShorter(s, t);
      HeadNotShorter(t, s);
      forall c: nat, m ensures Maps(s[1..], c, m) <==> Maps(t[1..], c, m) {
        TailMaps(s, c, m);
        TailMaps(t, c, m);
      }
      assert Normal(s[1..]) by { NormalTail(s); }
      assert Normal(t[1..]) by { NormalTail(t); }
      NormalFormUnique(s[1..], t[1..]);
      forall i | 0 <= i < |s| ensures s[i].(otherFlags := 0) == t[i].(otherFlags := 0) {
        if i > 0 { assert s[i] == s[1..][i - 1] && t[i] == t[1..][i - 1]; }
      }
    }
  }

  lemma {:induction false} NormalTail(s: seq<Extent>)
    requires Normal(s) && s != []
    ensures Normal(s[1..])
  {
    forall i | 0 <= i < |s[1..]| - 1 ensures !Mergeable(s[1..][i], s[1..][i + 1]) {
      assert s[1..][i] == s[i + 1] && s[1..][i + 1] == s[(i + 1) + 1];
    }
  }

  /** The result depends only on the map: the statement of uniqueness over BlockMap. */
  lemma {:induction false} NormalFormOfMap(s: seq<Extent>, t: seq<Extent>)
    requires Normal(s) && Normal(t) && BlockMap(s) == BlockMap(t)
    ensures SameUpToFlags(s, t)
  {
    forall b: nat, m ensures Maps(s, b, m) <==> Maps(t, b, m) {
      BlockMapMaps(s, b, m);
      BlockMapMaps(t, b, m);
    }
    NormalFormUnique(s, t);
  }
}
