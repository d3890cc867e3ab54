/** When the guard of a replay is met: simple conditions on the tags, and the run of two tags
    that does not meet it (e2fsck/journal.c). */
module FcGuard {
  import opened Extents
  import opened ExtentDisk
  import opened ExtentEdit
  import opened ExtentUnsafe
  import opened FcScan
  import opened FcReplay

  /** A range of at least one block that ends below block 2^31. */
  predicate Small(x: Extent) {
    x.len > 0 && x.lblk + x.len < 0x8000_0000
  }

  /** A tag that can be replayed in any order: additions have to be small, inside the address
      range, and not empty; nothing is deleted. */
  predicate PlainTag(t: Tag) {
    match t
    case AddRange(_, raw) => Small(Decode(raw)) && RangeOk(Decode(raw), false)
    case DelRange(_, _, _) => false
    case _ => true
  }

  lemma {:induction false} SmallIsSafe(m: BlkMap, x: Extent)
    requires Small(x)
    ensures MapSafe(m, false, x)
  {
    assert ExEnd(x) + 1 == x.lblk + x.len;
  }

  /** A log that only adds meets the guard: its replay is exact whatever the inodes map. */
  lemma {:induction false} AddsAreSafe(st: Spec, ts: seq<Tag>)
    requires !st.emptied && forall t :: t in ts ==> PlainTag(t)
    ensures RunSafe(st, ts)
    decreases |ts|
  {
    if ts != [] {
      assert PlainTag(ts[0]);
      if ts[0].AddRange? {
        var x := Decode(ts[0].raw);
        forall i | i in st.maps ensures MapSafe(st.maps[i], false, x) {
          SmallIsSafe(st.maps[i], x);
        }
      }
      AddsAreSafe(SpecStep(st, ts[0]), ts[1..]);
    }
  }

  // ---- Logs that delete as well ----

  /** What the tags alone tell of the cache: whose extents it holds, and whether the list may be an
      emptied extent at block 0. */
  datatype Cache = Cache(ino: nat, risky: bool)

  function CacheFlushed(k: Cache, next: nat): Cache {
    if k.ino == next || k.ino == 0 then k else Cache(0, false)
  }

  function CacheAfter(k: Cache, t: Tag): Cache {
    match t
    case AddRange(i, _) => Cache(i, false)
    case DelRange(i, lblk, _) => Cache(i, lblk == 0)
    case Creat(_) | Link(_) | Tail(_, _) => CacheFlushed(k, 0)
    case Unlink(i) => CacheFlushed(k, i)
    case Inode(i) => CacheFlushed(k, i)
    case _ => k
  }

  /** Every range is small, and a deletion from block 0 is not followed by another range of the same
      inode before the cache is flushed. */
  predicate Calm(k: Cache, t: Tag) {
    match t
    case AddRange(i, raw) =>
      Small(Decode(raw)) && RangeOk(Decode(raw), false) && !(k.risky && k.ino == i)
    case DelRange(i, lblk, len) => Small(DelExtent(lblk, len)) && !(k.risky && k.ino == i)
    case _ => true
  }

  predicate AllCalm(k: Cache, ts: seq<Tag>)
    decreases |ts|
  {
    ts == [] || (Calm(k, ts[0]) && AllCalm(CacheAfter(k, ts[0]), ts[1..]))
  }

  /** A deletion that empties a list and leaves an extent at block 0 begins there. */
  lemma {:induction false} EmptiedFromZero(m: BlkMap, x: Extent)
    requires OneExtentFromZero(m) && Update(m, x, true) == map[]
    ensures x.lblk == 0
  {
    var e :| InRange(e) && e.lblk == 0 && m == ExtentMap(e);
    assert 0 in m;
    assert !InHole(x, 0) ==> 0 in Update(m, x, true);
  }

  ghost predicate Foreseen(st: Spec, k: Cache) {
    st.cached == k.ino && (st.emptied ==> k.risky)
  }

  lemma {:induction false} CalmRange(st: Spec, k: Cache, i: nat, x: Extent, del: bool)
    requires Foreseen(st, k) && Small(x) && RangeOk(x, del) && !(k.risky && k.ino == i)
    ensures RangeSafe(st, i, x, del)
    ensures Foreseen(SpecRange(st, i, x, del), Cache(i, del && x.lblk == 0))
  {
    hide MapSafe, Update, OneExtentFromZero;
    if i != 0 && i in st.maps {
      SmallIsSafe(st.maps[i], x);
      if del && Update(st.maps[i], x, del) == map[] && OneExtentFromZero(st.maps[i]) {
        EmptiedFromZero(st.maps[i], x);
      }
    }
  }

  /** Such a log meets the guard: its replay is exact whatever the inodes map. */
  lemma {:induction false} CalmIsSafe(st: Spec, k: Cache, ts: seq<Tag>)
    requires Foreseen(st, k) && AllCalm(k, ts)
    ensures RunSafe(st, ts)
    decreases |ts|
  {
    hide SpecRange, RangeSafe, RangeOk;
    if ts != [] {
      var t := ts[0];
      match t {
        case AddRange(i, raw) => CalmRange(st, k, i, Decode(raw), false);
        case DelRange(i, lblk, len) =>
          DelRangeOk(lblk, len);
          CalmRange(st, k, i, DelExtent(lblk, len), true);
        case _ =>
      }
      assert Foreseen(SpecStep(st, t), CacheAfter(k, t));
      CalmIsSafe(SpecStep(st, t), CacheAfter(k, t), ts[1..]);
    }
  }

  lemma {:induction false} DelRangeOk(lblk: nat, len: nat)
    requires Small(DelExtent(lblk, len))
    ensures RangeOk(DelExtent(lblk, len), true)
  {
  }

  // ---- The run that does not meet it ----

  /** Deleting a file that is one extent from block 0 and then adding a range to it, while it
      stays in the cache, always gives a wrong map. */
  lemma {:induction false} DeleteThenAddIsWrong(e: Extent, del: Extent, add: Extent, r: seq<Extent>,
                                                r': seq<Extent>)
    requires InRange(e) && e.lblk == 0 && Small(del) && del.lblk == 0 && del.len >= e.len
    requires RangeOk(add, false) && add.len > 0
    requires Modify([e], del, true, r) && Modify(r, add, false, r')
    ensures LoneEmpty(r) && r[0].lblk == 0
    ensures BlockMap(r') != Update(Update(BlockMap([e]), del, true), add, false)
  {
    assert [e][1..] == [] && Normal([e]);
    assert Safe([e], del);
    ModifyIsUpdate([e], del, true, r);
    forall b: nat ensures b !in Update(BlockMap([e]), del, true) {
      BlockMapKeys([e], b);
    }
    OneExtentList([e]);
    EmptiedAfter([e], del, true, r);
    UnsafeIsWrong(r, add, false, r');
  }

  /** The guard of the replay sees it. */
  lemma {:induction false} DeleteThenAddIsUnsafe(st: Spec, ino: nat, len: nat, raw: RawExtent)
    requires ino != 0 && ino in st.maps && OneExtentFromZero(st.maps[ino]) && st.cached == ino
    requires !st.emptied && 0 < Decode(raw).len
    requires forall b :: b in st.maps[ino] ==> b < len
    requires 0 < len < 0x8000_0000
    ensures !RunSafe(st, [DelRange(ino, 0, len), AddRange(ino, raw)])
  {
    var ts := [DelRange(ino, 0, len), AddRange(ino, raw)];
    var x := DelExtent(0, len);
    assert Update(st.maps[ino], x, true) == map[];
    var mid := SpecStep(st, ts[0]);
    assert mid.emptied && mid.cached == ino;
    assert ts[1..][0] == ts[1];
    assert !StepSafe(mid, ts[1..][0]);
  }
}
