/** Where the guard of the range update fails, its result is wrong: together with
    ExtentEdit.ModifyIsUpdate this says exactly when ext4_modify_extent_list is map update. */
module ExtentUnsafe {
  import opened Extents
  import opened ExtentEdit

  // ---- Wrapped ends and truncated offsets ----

  predicate EndsIn64(s: seq<Extent>) {
    forall e :: e in s ==> e.lblk + e.len < 0x1_0000_0000_0000_0000
  }

  lemma {:induction false} MergedCovers(t: seq<Extent>, e: Extent, b: nat)
    requires EndsIn64(t) && e in Merged(t) && Covers(e, b)
    ensures exists f :: f in t && Covers(f, b)
    decreases |t|
  {
    if |t| < 2 {
    } else if Mergeable(t[0], t[1]) {
      var j, rest := Join(t[0], t[1]), t[2..];
      assert t[0] in t && t[1] in t;
      assert t[1].lblk == t[0].lblk + t[0].len;
      assert j.len <= t[0].len + t[1].len;
      assert forall f :: f in [j] + rest ==> f == j || f in t;
      MergedCovers([j] + rest, e, b);
      var f :| f in [j] + rest && Covers(f, b);
      assert f == j ==> Covers(t[0], b) || Covers(t[1], b);
    } else if e in Merged(t[1..]) {
      MergedCovers(t[1..], e, b);
    }
  }

  /** Sorting and merging never covers a block that was not covered. */
  lemma {:induction false} SortMergeCovers(s: seq<Extent>, r: seq<Extent>, b: nat)
    requires EndsIn64(s) && SortMerge(s, r) && b in BlockMap(r)
    ensures exists f :: f in s && Covers(f, b)
  {
    BlockMapKeys(r, b);
    var e :| e in r && Covers(e, b);
    if |s| >= 2 {
      var t :| StrippedAndSorted(s, t) && r == Merged(t);
      StrippedMembers(s, t);
      MergedCovers(t, e, b);
    }
  }

  lemma {:induction false} PunchWipes(s: seq<Extent>, x: Extent)
    requires WellFormed(s) && x.lblk == 0 && x.len == 0
    ensures forall f :: f in Punch(s, x) ==> f.len == 0 && f.lblk < 0x1_0000_0000
  {
    if s != [] {
      TailSorted(s);
      PunchWipes(s[1..], x);
    }
  }

  lemma {:induction false} FrontLosesBlock(e: Extent, x: Extent)
    requires InRange(e) && Fields32(x) && x.lblk + x.len > 0 && ReachesBeyond(e, x)
    requires ExEnd(x) + 1 - e.lblk >= 0x8000_0000
    ensures Stops(e, x) && EndsIn64(Pieces(e, x))
    ensures forall f :: f in Pieces(e, x) ==> !Covers(f, ExEnd(x) + 1)
  {
    BackWraps(e, x);
    hide KeepBack, KeepFront;
    assert ExEnd(e) == e.lblk + e.len - 1 && ExEnd(x) == x.lblk + x.len - 1;
    assert KeepFront(e, x).lblk == e.lblk && KeepFront(e, x).len < 0x1_0000_0000 by { FrontKept(e, x); }
    assert e.lblk < x.lblk ==> KeepFront(e, x).len == x.lblk - e.lblk by { FrontKept(e, x); }
  }

  lemma {:induction false} FrontKept(e: Extent, x: Extent)
    requires Fields32(x) && e.lblk < 0x1_0000_0000
    ensures KeepFront(e, x).lblk == e.lblk && KeepFront(e, x).len < 0x1_0000_0000
    ensures e.lblk < x.lblk ==> KeepFront(e, x).len == x.lblk - e.lblk
  {
  }

  lemma {:induction false} BackWraps(e: Extent, x: Extent)
    requires InRange(e) && Fields32(x) && x.lblk + x.len > 0 && ReachesBeyond(e, x)
    requires ExEnd(x) + 1 - e.lblk >= 0x8000_0000
    ensures var k := KeepBack(e, x);
            && k.lblk == ExEnd(x) + 1 - 0x1_0000_0000 + 0x1_0000_0000_0000_0000
            && k.len == e.lblk + e.len - ExEnd(x) - 1
  {
    var d := ExEnd(x) + 1 - e.lblk;
    assert 0x8000_0000 <= d < 0x1_0000_0000;
    assert Offset(e, x) == d - 0x1_0000_0000;
  }

  lemma {:induction false} BehindReach(s: seq<Extent>, x: Extent)
    requires Plain(s, x) && s != [] && ReachesBeyond(s[0], x)
    ensures EndsIn64(s[1..]) && forall f :: f in s[1..] ==> !Covers(f, ExEnd(x) + 1)
  {
    TailSorted(s);
    forall f | f in s[1..] ensures f.lblk + f.len < 0x1_0000_0000 {
      var j :| 0 <= j < |s| - 1 && s[1..][j] == f;
      assert f == s[j + 1];
    }
  }

  lemma {:induction false} PunchLosesBlock(s: seq<Extent>, x: Extent, i: nat)
    requires Plain(s, x) && i < |s| && ReachesBeyond(s[i], x)
    requires ExEnd(x) + 1 - s[i].lblk >= 0x8000_0000
    ensures EndsIn64(Punch(s, x))
    ensures forall f :: f in Punch(s, x) ==> !Covers(f, ExEnd(x) + 1)
  {
    hide Pieces, Stops, ExEnd;
    if i == 0 {
      FrontLosesBlock(s[0], x);
      BehindReach(s, x);
    } else {
      EarlierPieces(s, x, i);
      TailSorted(s);
      PunchLosesBlock(s[1..], x, i - 1);
    }
  }

  lemma {:induction false} EarlierPieces(s: seq<Extent>, x: Extent, i: nat)
    requires Plain(s, x) && 0 < i < |s| && ReachesBeyond(s[i], x)
    ensures !Stops(s[0], x) && EndsIn64(Pieces(s[0], x))
    ensures forall f :: f in Pieces(s[0], x) ==> !Covers(f, ExEnd(x) + 1)
  {
    assert Before(s[0], s[i]);
    PiecesValue(s[0], x);
  }

  lemma {:induction false} KeptKey(m: map<nat, Mapped>, x: Extent, del: bool, b: nat)
    requires b in m && !InHole(x, b)
    ensures b in Update(m, x, del)
  {
  }

  lemma {:induction false} AddedLosesBlock(s: seq<Extent>, x: Extent, del: bool, i: nat)
    requires WellFormed(s) && RangeOk(x, del) && i < |s| && ReachesBeyond(s[i], x)
    requires ExEnd(x) + 1 - s[i].lblk >= 0x8000_0000
    ensures EndsIn64(WithAdded(s, x, del)) && !InHole(x, ExEnd(x) + 1) && Covers(s[i], ExEnd(x) + 1)
    ensures forall f :: f in WithAdded(s, x, del) ==> !Covers(f, ExEnd(x) + 1)
  {
    assert s[i].lblk + s[i].len < 0x1_0000_0000;
    assert x.lblk + x.len > 0 && ExEnd(x) == x.lblk + x.len - 1;
    PunchLosesBlock(s, x, i);
  }

  lemma {:induction false} UnsafeOffset(s: seq<Extent>, x: Extent, del: bool, r: seq<Extent>, i: nat)
    requires WellFormed(s) && RangeOk(x, del) && Modify(s, x, del, r)
    requires i < |s| && ReachesBeyond(s[i], x) && ExEnd(x) + 1 - s[i].lblk >= 0x8000_0000
    ensures BlockMap(r) != Update(BlockMap(s), x, del)
  {
    hide WellFormed, WithAdded, SortMerge, BlockMap, Update, Covers, InHole, RangeOk;
    var c := ExEnd(x) + 1;
    AddedLosesBlock(s, x, del, i);
    if c in BlockMap(r) {
      SortMergeCovers(WithAdded(s, x, del), r, c);
    }
    assert s[i] in s && Covers(s[i], c);
    BlockMapKeys(s, c);
    KeptKey(BlockMap(s), x, del, c);
  }

  lemma {:induction false} UnsafeWipe(s: seq<Extent>, x: Extent, del: bool, r: seq<Extent>)
    requires WellFormed(s) && s != [] && x.lblk == 0 && x.len == 0 && Modify(s, x, del, r)
    ensures BlockMap(r) != Update(BlockMap(s), x, del)
  {
    var b := s[0].lblk;
    PunchWipes(s, x);
    if b in BlockMap(r) {
      SortMergeCovers(WithAdded(s, x, del), r, b);
    }
    assert s[0] in s && Covers(s[0], b);
    BlockMapKeys(s, b);
    assert b in Update(BlockMap(s), x, del);
  }

  // An emptied extent left at block 0: its "last block" is 2^64 - 1, so the loop cuts it.

  lemma {:induction false} CutAtZero(e: Extent, x: Extent)
    requires LoneEmpty([e]) && e.lblk == 0 && Fields32(x) && x.lblk + x.len > 0
    ensures Punch([e], x) ==
            if x.lblk == 0 then [KeepBack(e, x)] else [KeepFront(e, x), KeepBack(e, x)]
  {
    assert ExEnd(e) == 0xFFFF_FFFF_FFFF_FFFF && ExEnd(x) == x.lblk + x.len - 1;
    assert [e][1..] == [];
  }

  lemma {:induction false} KeepBackAtZero(e: Extent, x: Extent)
    requires LoneEmpty([e]) && e.lblk == 0 && Fields32(x) && x.lblk + x.len > 0
    ensures var k, d := KeepBack(e, x), x.lblk + x.len;
            && (k.lblk == 0 ==> k.len == 0)
            && (k.lblk == x.lblk && k.len > 0 ==> x.len == 0 && x.lblk < 0x8000_0000)
            && (d < 0x1_0000_0000 ==> k.len == 0x1_0000_0000 - d && k.lblk >= d)
  {
    assert ExEnd(x) == x.lblk + x.len - 1;
    var d := x.lblk + x.len;
    assert Offset(e, x) == if d < 0x8000_0000 then d
                           else if d < 0x1_8000_0000 then d - 0x1_0000_0000
                           else d - 0x2_0000_0000;
  }

  lemma {:induction false} HeadCovers(r: seq<Extent>, b: nat)
    requires r != [] && Covers(r[0], b)
    ensures b in BlockMap(r)
  {
    assert r[0] in r;
    BlockMapKeys(r, b);
  }

  lemma {:induction false} UnmergedHeadCovers(t: seq<Extent>, b: nat)
    requires t != [] && Covers(t[0], b) && (|t| > 1 ==> !Mergeable(t[0], t[1]))
    ensures b in BlockMap(Merged(t))
  {
    HeadCovers(Merged(t), b);
  }

  lemma {:induction false} ZeroFirst(s: seq<Extent>, t: seq<Extent>, h: Extent)
    requires StrippedAndSorted(s, t) && h in s && h.lblk == 0 && h.len > 0
    requires forall f :: f in s && f.lblk == 0 && f.len > 0 ==> f == h
    ensures t != [] && t[0] == h
  {
    StrippedMembers(s, t);
    var i :| 0 <= i < |t| && t[i] == h;
    assert t[0] in t;
  }

  /** The front piece at block 0 is joined to nothing, so block 0 becomes mapped. */
  lemma {:induction false} ZeroDelete(h: Extent, k: Extent, r: seq<Extent>)
    requires h.lblk == 0 && 0 < h.len < 0x1_0000_0000 && SortMerge([h, k], r)
    requires k.len > 0 ==> k.lblk > 0 && k.lblk != h.len
    ensures 0 in BlockMap(r)
  {
    var t :| StrippedAndSorted([h, k], t) && r == Merged(t);
    ZeroFirst([h, k], t, h);
    if |t| >= 2 {
      OnceDistinctPair(h, k, t);
      MergeableAtZero(h, k);
    }
    HeadCovers(r, 0);
  }

  lemma {:induction false} OnceDistinctPair(h: Extent, k: Extent, t: seq<Extent>)
    requires StrippedAndSorted([h, k], t) && |t| >= 2 && t[0] == h && h != k
    ensures t[1] == k && k.len > 0
  {
    StrippedMembers([h, k], t);
    assert multiset([h, k])[h] == 1;
    OnceDistinct(t, 0, 1);
    assert t[1] in t;
  }

  lemma {:induction false} MergeableAtZero(h: Extent, k: Extent)
    requires h.lblk == 0 && 0 < h.len < 0x1_0000_0000
    ensures Mergeable(h, k) ==> k.lblk == h.len
  {
  }

  lemma {:induction false} AllStripped(w: seq<Extent>, t: seq<Extent>)
    requires StrippedAndSorted(w, t) && forall f :: f in w ==> f.len > 0
    ensures multiset(t) == multiset(w) && |t| == |w|
  {
    forall f ensures multiset(t)[f] == multiset(w)[f] {
      if multiset(w)[f] > 0 { assert f in w; }
    }
    assert |t| == |multiset(t)|;
  }

  lemma {:induction false} ThirdOf(a: Extent, b: Extent, c: Extent, t: seq<Extent>)
    requires |t| == 3 && t[0] == a && t[1] == b && multiset(t) == multiset([a, c, b])
    ensures t == [a, b, c]
  {
    assert t == [a, b, t[2]];
    assert multiset(t) == multiset{a, b, t[2]};
    assert multiset{a, b, t[2]} - multiset{a, b} == multiset{t[2]};
    assert multiset{a, c, b} - multiset{a, b} == multiset{c};
    assert c in multiset{t[2]};
  }

  /** The pieces around an added extent that continue it: all three lengths wrap to 0. */
  lemma {:induction false} MergedAround(h: Extent, x: Extent, k: Extent)
    requires h.lblk == 0 && h.len == x.lblk > 0 && InRange(x)
    requires k.len == 0x1_0000_0000 - (x.lblk + x.len)
    requires Mergeable(h, x)
    ensures var r := Merged([h, x, k]); 0 in BlockMap(r) || BlockMap(r) == map[]
  {
    var j := Join(h, x);
    assert j.lblk == 0 && j.len == x.lblk + x.len;
    assert [j] + [h, x, k][2..] == [j, k];
    if Mergeable(j, k) {
      MergeableAtZero(j, k);
      MergedPair(j, k);
      EmptiedMap([Join(j, k)]);
    } else {
      HeadCovers(Merged([j, k]), 0);
    }
  }

  lemma {:induction false} ZeroAddMerged(h: Extent, k: Extent, x: Extent, t: seq<Extent>)
    requires InRange(x) && x.lblk > 0 && h.lblk == 0 && h.len == x.lblk
    requires k.len == 0x1_0000_0000 - (x.lblk + x.len) && k.lblk >= x.lblk + x.len
    requires |t| == 3 && t[0] == h && multiset(t) == multiset([h, k, x])
    requires Mergeable(h, t[1]) && t[1] in [k, x]
    ensures 0 in BlockMap(Merged(t)) || BlockMap(Merged(t)) == map[]
  {
    MergeableAtZero(h, t[1]);
    ThirdOf(h, x, k, t);
    MergedAround(h, x, k);
  }

  lemma {:induction false} ZeroAdd(h: Extent, k: Extent, x: Extent, r: seq<Extent>)
    requires InRange(x) && x.lblk > 0 && h.lblk == 0 && h.len == x.lblk
    requires k.len == 0x1_0000_0000 - (x.lblk + x.len) && k.lblk >= x.lblk + x.len
    requires SortMerge([h, k, x], r)
    ensures 0 in BlockMap(r) || BlockMap(r) == map[]
  {
    hide Merged, BlockMap, Mergeable;
    var w := [h, k, x];
    var t :| StrippedAndSorted(w, t) && r == Merged(t);
    ZeroFirst(w, t, h);
    AllStripped(w, t);
    SecondOf(h, k, x, t);
    if Mergeable(h, t[1]) {
      ZeroAddMerged(h, k, x, t);
    } else {
      UnmergedHeadCovers(t, 0);
    }
  }

  lemma {:induction false} SecondOf(h: Extent, k: Extent, x: Extent, t: seq<Extent>)
    requires |t| == 3 && t[0] == h && multiset(t) == multiset([h, k, x]) && h != k && h != x
    ensures t[1] in [k, x]
  {
    assert multiset([h, k, x])[h] == 1;
    OnceDistinct(t, 0, 1);
    assert t[1] in multiset(t);
  }

  lemma {:induction false} TwoInOrder(x: Extent, k: Extent, t: seq<Extent>)
    requires StrippedAndSorted([k, x], t) && x.len > 0 && k.len > 0 && x.lblk < k.lblk
    ensures t == [x, k]
  {
    AllStripped([k, x], t);
    assert x in multiset(t) && k in multiset(t);
    assert x in t && k in t;
  }

  lemma {:induction false} ZeroStart(k: Extent, x: Extent, r: seq<Extent>)
    requires InRange(x) && x.lblk == 0 && k.len == 0x1_0000_0000 - x.len && k.lblk >= x.len
    requires SortMerge([k, x], r)
    ensures BlockMap(r) == map[] || k.lblk in BlockMap(r)
  {
    var t :| StrippedAndSorted([k, x], t) && r == Merged(t);
    TwoInOrder(x, k, t);
    MergedAtStart(x, k);
  }

  lemma {:induction false} MergedAtStart(x: Extent, k: Extent)
    requires InRange(x) && x.lblk == 0 && k.len == 0x1_0000_0000 - x.len && k.lblk >= x.len
    ensures BlockMap(Merged([x, k])) == map[] || k.lblk in BlockMap(Merged([x, k]))
  {
    if Mergeable(x, k) {
      MergedPair(x, k);
      EmptiedMap([Join(x, k)]);
    } else {
      var r := Merged([x, k]);
      assert r == [x] + Merged([k]);
      assert k in r && Covers(k, k.lblk);
      BlockMapKeys(r, k.lblk);
    }
  }

  /** An emptied extent at block 0 and a range behind block 0. */
  lemma {:induction false} UnsafeBehindZero(e: Extent, x: Extent, del: bool, r: seq<Extent>)
    requires LoneEmpty([e]) && e.lblk == 0 && RangeOk(x, del) && x.lblk > 0
    requires !(x.len == 0 && x.lblk < 0x8000_0000)
    requires Modify([e], x, del, r)
    ensures 0 in BlockMap(r) || (BlockMap(r) == map[] && !del && x.len > 0)
  {
    var h, k := KeepFront(e, x), KeepBack(e, x);
    CutAtZero(e, x);
    KeepBackAtZero(e, x);
    if del || x.len == 0 {
      assert WithAdded([e], x, del) == [h, k];
      ZeroDelete(h, k, r);
    } else {
      assert WithAdded([e], x, del) == [h, k, x];
      ZeroAdd(h, k, x, r);
    }
  }

  /** An emptied extent at block 0 and a range that starts there. */
  lemma {:induction false} UnsafeFromZero(e: Extent, x: Extent, del: bool, r: seq<Extent>)
    requires LoneEmpty([e]) && e.lblk == 0 && RangeOk(x, del) && x.lblk == 0 && x.len > 0
    requires Modify([e], x, del, r)
    ensures KeepBack(e, x).lblk >= x.len
    ensures KeepBack(e, x).lblk in BlockMap(r) || (BlockMap(r) == map[] && !del)
  {
    var k := KeepBack(e, x);
    CutAtZero(e, x);
    KeepBackAtZero(e, x);
    if del {
      assert WithAdded([e], x, del) == [k];
      HeadCovers(r, k.lblk);
    } else {
      assert WithAdded([e], x, del) == [k, x];
      ZeroStart(k, x, r);
    }
  }

  lemma {:induction false} UpdatedEmpty(x: Extent, del: bool, b: nat)
    ensures b in Update(map[], x, del) <==> !del && Covers(x, b)
  {
  }

  lemma {:induction false} UnsafeLoneEmpty(e: Extent, x: Extent, del: bool, r: seq<Extent>)
    requires LoneEmpty([e]) && e.lblk == 0 && RangeOk(x, del) && !Safe([e], x)
    requires Modify([e], x, del, r)
    ensures BlockMap(r) != Update(map[], x, del)
  {
    NotSafeAtZero(e, x);
    hide Update, BlockMap, Modify, KeepBack, LoneEmpty, RangeOk, Safe;
    UpdatedEmpty(x, del, x.lblk);
    if x.lblk == 0 {
      UnsafeFromZero(e, x, del, r);
      UpdatedEmpty(x, del, KeepBack(e, x).lblk);
    } else {
      UnsafeBehindZero(e, x, del, r);
      UpdatedEmpty(x, del, 0);
    }
  }

  lemma {:induction false} NotSafeAtZero(e: Extent, x: Extent)
    requires LoneEmpty([e]) && e.lblk == 0 && !Safe([e], x)
    ensures !(x.len == 0 && x.lblk < 0x8000_0000)
  {
    assert forall i :: 0 <= i < |[e]| ==> [e][i] == e;
  }

  /** Where the guard fails, the update is wrong. */
  lemma {:induction false} UnsafeIsWrong(s: seq<Extent>, x: Extent, del: bool, r: seq<Extent>)
    requires Editable(s) && RangeOk(x, del) && !Safe(s, x) && Modify(s, x, del, r)
    ensures BlockMap(r) != Update(BlockMap(s), x, del)
  {
    hide Update, BlockMap, Modify, RangeOk;
    if LoneEmpty(s) {
      EmptiedMap(s);
      LoneUnsafe(s[0], x);
      UnsafeLoneEmpty(s[0], x, del, r);
    } else if i :| 0 <= i < |s| && ReachesBeyond(s[i], x) && ExEnd(x) + 1 - s[i].lblk >= 0x8000_0000 {
      UnsafeOffset(s, x, del, r, i);
    } else {
      UnsafeWipe(s, x, del, r);
    }
  }

  lemma {:induction false} LoneUnsafe(e: Extent, x: Extent)
    requires LoneEmpty([e]) && !Safe([e], x)
    ensures e.lblk == 0
  {
    assert forall i :: 0 <= i < |[e]| ==> [e][i] == e;
  }

  /** ext4_modify_extent_list is map update exactly on the safe inputs. */
  lemma {:induction false} ModifyExact(s: seq<Extent>, x: Extent, del: bool, r: seq<Extent>)
    requires Editable(s) && RangeOk(x, del) && Modify(s, x, del, r)
    ensures BlockMap(r) == Update(BlockMap(s), x, del) <==> Safe(s, x)
  {
    if Safe(s, x) {
      ModifyIsUpdate(s, x, del, r);
    } else {
      UnsafeIsWrong(s, x, del, r);
    }
  }
}
