/** The replay phase of fast-commit recovery (e2fsck/journal.c): the committed tags are applied
    through a one-inode extent cache that is written back lazily. */
module FcReplay {
  import opened Extents
  import opened ExtentDisk
  import opened ExtentEdit
  import opened ExtentTree
  import opened ExtentUnsafe
  import opened ExtentLists
  import opened FcScan

  type BlkMap = map<nat, Mapped>

  // ---- What the committed tags mean ----

  function DelExtent(lblk: nat, len: nat): Extent {
    Extent(lblk, 0, len, false, 0)
  }

  /** The effect of one tag on the logical-to-physical map of inode `ino`. */
  ghost function ApplyTag(m: BlkMap, ino: nat, t: Tag): BlkMap {
    match t
    case AddRange(i, raw) => if i == ino then Update(m, Decode(raw), false) else m
    case DelRange(i, lblk, len) => if i == ino then Update(m, DelExtent(lblk, len), true) else m
    case _ => m
  }

  /** The effect of the tags, in order. */
  ghost function ApplyTags(m: BlkMap, ino: nat, ts: seq<Tag>): BlkMap
    decreases |ts|
  {
    if ts == [] then m else ApplyTags(ApplyTag(m, ino, ts[0]), ino, ts[1..])
  }

  /** What the tags mean for one block, from the fields as they stand in the log: an addition maps
      its blocks, in order and as written or unwritten, a deletion takes its blocks away, and every
      other block, inode and tag is left alone. */
  lemma {:induction false} TagMeans(m: BlkMap, ino: nat, t: Tag, b: nat)
    ensures var r := ApplyTag(m, ino, t);
            match t
            case AddRange(i, raw) =>
              var unwritten := raw.eeLen > 0x8000;
              var len := if unwritten then raw.eeLen - 0x8000 else raw.eeLen;
              if i == ino && raw.eeBlock <= b < raw.eeBlock + len then
                b in r && r[b] == Mapped(raw.eeStart + (b - raw.eeBlock), unwritten)
              else SameAt(m, r, b)
            case DelRange(i, lblk, len) =>
              if i == ino && lblk <= b < lblk + len then b !in r else SameAt(m, r, b)
            case _ => r == m
  {
    if t.AddRange? {
      AddedMeans(m, t.raw, b);
    }
  }

  predicate SameAt(m: BlkMap, r: BlkMap, b: nat) {
    (b in r <==> b in m) && (b in m ==> r[b] == m[b])
  }

  // ---- The guard on a run: an abstract machine over maps ----

  /** The maps of all inodes, the cached inode (0: none), and whether the cached list is an
      emptied extent at block 0. */
  datatype Spec = Spec(maps: map<nat, BlkMap>, cached: nat, emptied: bool)

  /** The map is one extent that starts at block 0. */
  ghost predicate OneExtentFromZero(m: BlkMap) {
    exists e :: InRange(e) && e.lblk == 0 && m == ExtentMap(e)
  }

  /** No kept extent of the map has 2^31 blocks or more in front of the end of the range. */
  ghost predicate OffsetsFit(m: BlkMap, x: Extent) {
    forall s: seq<Extent>, i :: Normal(s) && BlockMap(s) == m && 0 <= i < |s| && ReachesBeyond(s[i], x) ==>
      ExEnd(x) + 1 - s[i].lblk < 0x8000_0000
  }

  /** ExtentEdit.Safe, said of the map. */
  ghost predicate MapSafe(m: BlkMap, emptied: bool, x: Extent) {
    && (x.lblk == 0 && x.len == 0 ==> m == map[])
    && (emptied ==> x.len == 0 && x.lblk < 0x8000_0000)
    && OffsetsFit(m, x)
  }

  function SpecFlush(st: Spec, next: nat): Spec {
    if st.cached == next || st.cached == 0 then st else st.(cached := 0, emptied := false)
  }

  function SpecRead(st: Spec, ino: nat): Spec {
    if st.cached == ino then st else st.(cached := ino, emptied := false)
  }

  /** A range update of the cached inode. */
  ghost function SpecModify(r: Spec, ino: nat, x: Extent, del: bool): Spec {
    if ino == 0 || ino !in r.maps then r
    else
      var m := r.maps[ino];
      var gone := (del || x.len == 0) && Update(m, x, del) == map[]
                  && (r.emptied || OneExtentFromZero(m));
      r.(maps := r.maps[ino := Update(m, x, del)], emptied := gone)
  }

  ghost function SpecRange(st: Spec, ino: nat, x: Extent, del: bool): Spec {
    SpecModify(SpecRead(SpecFlush(st, ino), ino), ino, x, del)
  }

  ghost function SpecStep(st: Spec, t: Tag): Spec {
    match t
    case AddRange(i, raw) => SpecRange(st, i, Decode(raw), false)
    case DelRange(i, lblk, len) => SpecRange(st, i, DelExtent(lblk, len), true)
    case Creat(_) | Link(_) => SpecFlush(st, 0)
    case Unlink(i) => SpecFlush(st, i)
    case Inode(i) => SpecFlush(st, i)
    case Tail(_, _) => SpecFlush(st, 0)
    case _ => st
  }

  ghost predicate RangeSafe(st: Spec, ino: nat, x: Extent, del: bool) {
    ino != 0 && ino in st.maps ==>
      RangeOk(x, del) && MapSafe(st.maps[ino], SpecRead(SpecFlush(st, ino), ino).emptied, x)
  }

  ghost predicate StepSafe(st: Spec, t: Tag) {
    match t
    case AddRange(i, raw) => RangeSafe(st, i, Decode(raw), false)
    case DelRange(i, lblk, len) => RangeSafe(st, i, DelExtent(lblk, len), true)
    case _ => true
  }

  ghost function SpecRun(st: Spec, ts: seq<Tag>): Spec
    decreases |ts|
  {
    if ts == [] then st else SpecRun(SpecStep(st, ts[0]), ts[1..])
  }

  /** Every range update of the run meets its guard. */
  ghost predicate RunSafe(st: Spec, ts: seq<Tag>)
    decreases |ts|
  {
    ts == [] || (StepSafe(st, ts[0]) && RunSafe(SpecStep(st, ts[0]), ts[1..]))
  }

  lemma {:induction false} SpecRangeApplies(st: Spec, i: nat, x: Extent, del: bool, ino: nat)
    requires ino in st.maps && ino != 0
    ensures SpecRange(st, i, x, del).maps.Keys == st.maps.Keys
    ensures SpecRange(st, i, x, del).maps[ino] ==
            if i == ino then Update(st.maps[ino], x, del) else st.maps[ino]
  {
    hide Update, OneExtentFromZero;
    SpecRangeKeys(st, i, x, del);
  }

  lemma {:induction false} SpecRangeKeys(st: Spec, i: nat, x: Extent, del: bool)
    ensures SpecRange(st, i, x, del).maps.Keys == st.maps.Keys
  {
    hide Update, OneExtentFromZero;
    var r := SpecRead(SpecFlush(st, i), i);
    assert r.maps == st.maps;
    if i != 0 && i in r.maps {
      assert SpecRange(st, i, x, del).maps == r.maps[i := Update(r.maps[i], x, del)];
    }
  }

  lemma {:induction false} SpecStepApplies(st: Spec, t: Tag, ino: nat)
    requires ino in st.maps && ino != 0
    ensures SpecStep(st, t).maps.Keys == st.maps.Keys
    ensures SpecStep(st, t).maps[ino] == ApplyTag(st.maps[ino], ino, t)
  {
    hide Update, SpecRange;
    match t
    case AddRange(i, raw) => SpecRangeApplies(st, i, Decode(raw), false, ino);
    case DelRange(i, lblk, len) => SpecRangeApplies(st, i, DelExtent(lblk, len), true, ino);
    case _ =>
  }

  /** Caching and flushing do not show: the machine's maps are the tags applied in order. */
  lemma {:induction false} SpecRunApplies(st: Spec, ts: seq<Tag>, ino: nat)
    requires ino in st.maps && ino != 0
    ensures SpecRun(st, ts).maps.Keys == st.maps.Keys
    ensures SpecRun(st, ts).maps[ino] == ApplyTags(st.maps[ino], ino, ts)
    decreases |ts|
  {
    if ts != [] {
      SpecStepApplies(st, ts[0], ino);
      SpecRunApplies(SpecStep(st, ts[0]), ts[1..], ino);
    }
  }

  lemma {:induction false} SpecRunConcat(st: Spec, a: seq<Tag>, b: seq<Tag>)
    ensures SpecRun(st, a + b) == SpecRun(SpecRun(st, a), b)
    ensures RunSafe(st, a + b) <==> RunSafe(st, a) && RunSafe(SpecRun(st, a), b)
    decreases |a|
  {
    if a == [] {
      assert a + b == b;
    } else {
      assert (a + b)[1..] == a[1..] + b;
      SpecRunConcat(SpecStep(st, a[0]), a[1..], b);
    }
  }

  /** A run that ends with a TAIL leaves nothing cached. */
  lemma {:induction false} TailFlushes(st: Spec, ts: seq<Tag>)
    requires ts != [] && ts[|ts| - 1].Tail?
    ensures SpecRun(st, ts).cached == 0
    decreases |ts|
  {
    if |ts| > 1 {
      TailFlushes(SpecStep(st, ts[0]), ts[1..]);
    }
  }

  // ---- The guard over maps is the guard over lists ----

  lemma {:induction false} MappedSomewhere(s: seq<Extent>)
    requires WellFormed(s) && s != []
    ensures BlockMap(s) != map[]
  {
    assert s[0] in s && Covers(s[0], s[0].lblk);
    BlockMapKeys(s, s[0].lblk);
  }

  /** The offsets of one list fit if those of every normal list with the same map do, and the
      other way round: such lists differ in flags only. */
  lemma {:induction false} OffsetsFitIff(s: seq<Extent>, x: Extent)
    requires Normal(s)
    ensures OffsetsFit(BlockMap(s), x) <==>
            forall i :: 0 <= i < |s| && ReachesBeyond(s[i], x) ==> ExEnd(x) + 1 - s[i].lblk < 0x8000_0000
  {
    if forall i :: 0 <= i < |s| && ReachesBeyond(s[i], x) ==> ExEnd(x) + 1 - s[i].lblk < 0x8000_0000 {
      forall t: seq<Extent>, i | Normal(t) && BlockMap(t) == BlockMap(s) && 0 <= i < |t| && ReachesBeyond(t[i], x)
        ensures ExEnd(x) + 1 - t[i].lblk < 0x8000_0000
      {
        NormalFormOfMap(t, s);
        assert t[i].(otherFlags := 0) == s[i].(otherFlags := 0);
        assert t[i].lblk == s[i].lblk && t[i].len == s[i].len;
      }
    }
  }

  lemma {:induction false} EmptiedOffsetsFit(x: Extent)
    ensures OffsetsFit(map[], x)
  {
    forall t: seq<Extent> | Normal(t) && BlockMap(t) == map[] ensures t == [] {
      if t != [] { MappedSomewhere(t); }
    }
  }

  /** The guard over the map of a cached list is the guard over the list. */
  lemma {:induction false} MapSafeIffSafe(s: seq<Extent>, x: Extent)
    requires Normal(s) || LoneEmpty(s)
    ensures MapSafe(BlockMap(s), LoneEmpty(s) && s[0].lblk == 0, x) <==> Safe(s, x)
  {
    if LoneEmpty(s) {
      EmptiedMap(s);
      EmptiedOffsetsFit(x);
    } else {
      OffsetsFitIff(s, x);
      if s != [] { MappedSomewhere(s); }
    }
  }

  lemma {:induction false} OneExtentList(s: seq<Extent>)
    requires Normal(s)
    ensures OneExtentFromZero(BlockMap(s)) <==> |s| == 1 && s[0].lblk == 0
  {
    if |s| == 1 {
      assert s[1..] == [];
      assert BlockMap(s) == ExtentMap(s[0]);
    }
    if OneExtentFromZero(BlockMap(s)) {
      var e :| InRange(e) && e.lblk == 0 && BlockMap(s) == ExtentMap(e);
      assert [e][1..] == [];
      assert BlockMap([e]) == ExtentMap(e);
      NormalFormOfMap(s, [e]);
    }
  }

  /** Which updates leave an emptied extent at block 0 behind. */
  lemma {:induction false} EmptiedAfter(s: seq<Extent>, x: Extent, del: bool, r: seq<Extent>)
    requires Normal(s) || LoneEmpty(s)
    requires RangeOk(x, del) && Safe(s, x) && Modify(s, x, del, r)
    ensures LoneEmpty(r) && r[0].lblk == 0 <==>
            (del || x.len == 0) && Update(BlockMap(s), x, del) == map[]
            && ((LoneEmpty(s) && s[0].lblk == 0) || OneExtentFromZero(BlockMap(s)))
  {
    ModifyIsUpdate(s, x, del, r);
    if LoneEmpty(s) {
      EmptiedMap(s);
      NotOneExtent();
      EmptiedAgain(s[0], x, del, r);
    } else {
      OneExtentList(s);
      EmptiedFirst(s, x, del, r);
    }
  }

  /** The facts about one update that the replay needs, all in terms of the maps. */
  lemma {:induction false} ModifyRefines(s: seq<Extent>, x: Extent, del: bool, r: seq<Extent>)
    requires Normal(s) || LoneEmpty(s)
    requires RangeOk(x, del) && Modify(s, x, del, r)
    requires MapSafe(BlockMap(s), LoneEmpty(s) && s[0].lblk == 0, x)
    ensures BlockMap(r) == Update(BlockMap(s), x, del)
    ensures Normal(r) || LoneEmpty(r)
    ensures LoneEmpty(r) && r[0].lblk == 0 <==>
            (del || x.len == 0) && Update(BlockMap(s), x, del) == map[]
            && ((LoneEmpty(s) && s[0].lblk == 0) || OneExtentFromZero(BlockMap(s)))
  {
    MapSafeIffSafe(s, x);
    ModifyIsUpdate(s, x, del, r);
    EmptiedAfter(s, x, del, r);
  }

  lemma {:induction false} NotOneExtent()
    ensures !OneExtentFromZero(map[])
  {
    forall e | InRange(e) ensures ExtentMap(e) != map[] {
      assert e.lblk in ExtentMap(e);
    }
  }

  lemma {:induction false} EmptiedAgain(e: Extent, x: Extent, del: bool, r: seq<Extent>)
    requires LoneEmpty([e]) && RangeOk(x, del) && Safe([e], x) && Modify([e], x, del, r)
    ensures del || x.len == 0 ==> r == [e]
    ensures !(del || x.len == 0) ==> !LoneEmpty(r)
  {
    if del || x.len == 0 {
      assert WithAdded([e], x, del) == Punch([e], x);
      if e.lblk == 0 && x.lblk > 0 {
        LoneEmptyAtZero(e, x, r);
      } else {
        PunchLoneEmpty(e, x);
      }
    } else {
      ModifyIsUpdate([e], x, del, r);
      AddedIsMapped(BlockMap([e]), x);
      if LoneEmpty(r) { EmptiedMap(r); }
    }
  }

  lemma {:induction false} AddedIsMapped(m: BlkMap, x: Extent)
    requires x.len > 0
    ensures Update(m, x, false) != map[]
  {
    assert Covers(x, x.lblk) && x.lblk in Update(m, x, false);
  }

  lemma {:induction false} EmptiedFirst(s: seq<Extent>, x: Extent, del: bool, r: seq<Extent>)
    requires Normal(s) && RangeOk(x, del) && Safe(s, x) && Modify(s, x, del, r)
    ensures LoneEmpty(r) && r[0].lblk == 0 <==>
            (del || x.len == 0) && Update(BlockMap(s), x, del) == map[] && |s| == 1 && s[0].lblk == 0
  {
    if LoneEmpty(r) {
      EmptiedOnly(s, x, del, r);
    }
    if (del || x.len == 0) && Update(BlockMap(s), x, del) == map[] && |s| == 1 && s[0].lblk == 0 {
      assert s == [s[0]];
      WholePunched(s[0], x, del);
    }
  }

  /** An emptied extent is left only where the one extent of the list was cut away whole. */
  lemma {:induction false} EmptiedOnly(s: seq<Extent>, x: Extent, del: bool, r: seq<Extent>)
    requires Normal(s) && RangeOk(x, del) && Safe(s, x) && Modify(s, x, del, r) && LoneEmpty(r)
    ensures (del || x.len == 0) && Update(BlockMap(s), x, del) == map[]
    ensures |s| == 1 && s[0].lblk == r[0].lblk
  {
    ModifyIsUpdate(s, x, del, r);
    EmptiedMap(r);
    if !(del || x.len == 0) { AddedIsMapped(BlockMap(s), x); }
    var w := WithAdded(s, x, del);
    if |w| >= 2 {
      SortedNotEmptied(s, x, del, r);
    }
    LonePunched(s, x);
  }

  lemma {:induction false} SortedNotEmptied(s: seq<Extent>, x: Extent, del: bool, r: seq<Extent>)
    requires WellFormed(s) && RangeOk(x, del) && Safe(s, x) && Modify(s, x, del, r)
    requires |WithAdded(s, x, del)| >= 2
    ensures !LoneEmpty(r)
  {
    var w := WithAdded(s, x, del);
    var t :| StrippedAndSorted(w, t) && r == Merged(t);
    assert x.lblk + x.len > 0;
    PunchAddApart(s, x, del);
    StrippedWellFormed(w, t);
    MergedNormal(t);
  }

  /** Cutting leaves at least as many extents as there were, so one is left of one, in place. */
  lemma {:induction false} LonePunched(s: seq<Extent>, x: Extent)
    requires WellFormed(s) && Safe(s, x) && Fields32(x) && |Punch(s, x)| == 1 && Punch(s, x)[0].len == 0
    ensures |s| == 1 && s[0].lblk == Punch(s, x)[0].lblk
  {
    if x.lblk + x.len > 0 {
      PunchGrows(s, x);
      PiecesValue(s[0], x);
      assert s[1..] == [];
      assert ReachesBeyond(s[0], x) ==> ExEnd(x) + 1 - s[0].lblk < 0x8000_0000;
    }
  }

  lemma {:induction false} PunchGrows(s: seq<Extent>, x: Extent)
    ensures |Punch(s, x)| >= |s|
  {
    if s != [] { PunchGrows(s[1..], x); }
  }

  lemma {:induction false} KeptMapped(e: Extent, x: Extent, del: bool, b: nat)
    requires Covers(e, b)
    ensures Update(ExtentMap(e), x, del) == map[] ==> InHole(x, b)
  {
    assert b in ExtentMap(e);
    assert !InHole(x, b) ==> b in Update(ExtentMap(e), x, del);
  }

  lemma {:induction false} WholePunched(e: Extent, x: Extent, del: bool)
    requires InRange(e) && RangeOk(x, del) && Safe([e], x) && (del || x.len == 0)
    requires Update(BlockMap([e]), x, del) == map[]
    ensures WithAdded([e], x, del) == [e.(len := 0)]
  {
    assert [e][1..] == [];
    assert [e][0] == e;
    assert BlockMap([e]) == ExtentMap(e);
    KeptMapped(e, x, del, e.lblk);
    KeptMapped(e, x, del, e.lblk + e.len - 1);
    PiecesValue(e, x);
    assert Punch([e], x) == Pieces(e, x);
  }

  // ---- The replay as a machine ----

  /** The leaf extents in the tree of every extent-mapped inode, and the one cached list. */
  datatype State = State(disk: map<nat, seq<Extent>>, ino: nat, list: seq<Extent>)

  /** ext4_fc_flush_extents: the cached list is written back unless it is the next inode's. */
  function Flushed(c: State, next: nat): State {
    if c.ino == next || c.ino == 0 then c
    else State(if c.ino in c.disk then c.disk[c.ino := Rewritten(c.list)] else c.disk, 0, [])
  }

  /** ext4_fc_read_extents: a tree that cannot be read leaves an empty list. */
  function Loaded(c: State, ino: nat): State {
    if c.ino == ino then c
    else State(c.disk, ino, if ino in c.disk then LoadAll([], c.disk[ino]) else [])
  }

  ghost predicate RangeStep(c: State, ino: nat, x: Extent, del: bool, c': State) {
    var r := Loaded(Flushed(c, ino), ino);
    c'.disk == r.disk && c'.ino == r.ino && Modify(r.list, x, del, c'.list)
  }

  /** What one tag does, with any outcome that qsort allows. */
  ghost predicate TagStep(c: State, t: Tag, c': State) {
    match t
    case AddRange(i, raw) => RangeStep(c, i, Decode(raw), false, c')
    case DelRange(i, lblk, len) => RangeStep(c, i, DelExtent(lblk, len), true, c')
    case Creat(_) | Link(_) => c' == Flushed(c, 0)
    case Unlink(i) => c' == Flushed(c, i)
    case Inode(i) => c' == Flushed(c, i)
    case Tail(_, _) => c' == Flushed(c, 0)
    case _ => c' == c
  }

  ghost predicate StepAt(states: seq<State>, ts: seq<Tag>, i: nat) {
    i < |ts| && i + 1 < |states| && TagStep(states[i], ts[i], states[i + 1])
  }

  /** The states before, between and behind the tags of a run. */
  ghost predicate Run(states: seq<State>, ts: seq<Tag>) {
    |states| == |ts| + 1 && forall i :: 0 <= i < |ts| ==> StepAt(states, ts, i)
  }

  lemma {:induction false} RunMore(states: seq<State>, ts: seq<Tag>, t: Tag, c: State)
    requires Run(states, ts) && TagStep(states[|ts|], t, c)
    ensures Run(states + [c], ts + [t])
  {
    hide TagStep;
    forall i | 0 <= i < |ts + [t]| ensures StepAt(states + [c], ts + [t], i) {
      if i < |ts| { assert StepAt(states, ts, i); }
    }
  }

  lemma {:induction false} RunLess(states: seq<State>, ts: seq<Tag>)
    requires Run(states, ts) && ts != []
    ensures var n := |ts| - 1;
            Run(states[..n + 1], ts[..n]) && TagStep(states[n], ts[n], states[n + 1])
  {
    hide TagStep;
    var n := |ts| - 1;
    assert StepAt(states, ts, n);
    var pre, tags := states[..n + 1], ts[..n];
    forall i | 0 <= i < n ensures StepAt(pre, tags, i) {
      assert StepAt(states, ts, i);
    }
  }

  /** Two runs, the second from where the first one ends. */
  lemma {:induction false} RunJoin(a: seq<State>, ts: seq<Tag>, b: seq<State>, us: seq<Tag>)
    requires Run(a, ts) && Run(b, us) && a[|ts|] == b[0]
    ensures Run(a[..|ts|] + b, ts + us)
  {
    hide TagStep;
    var n := |ts|;
    forall i | 0 <= i < |ts + us| ensures StepAt(a[..n] + b, ts + us, i) {
      if i < n { assert StepAt(a, ts, i); } else { assert StepAt(b, us, i - n); }
    }
  }

  // ---- What the state stands for ----

  /** Every tree is well formed, and the cached list can be one of an inode on disk. */
  ghost predicate Sound(c: State) {
    && 0 !in c.disk
    && (forall i :: i in c.disk ==> WellFormed(c.disk[i]))
    && (c.ino != 0 ==> c.ino in c.disk && (Normal(c.list) || LoneEmpty(c.list)))
  }

  /** The maps as the next reader of each inode will see them. */
  ghost function MapsOf(c: State): map<nat, BlkMap> {
    map i | i in c.disk :: BlockMap(if i == c.ino then c.list else c.disk[i])
  }

  ghost function Abs(c: State): Spec {
    Spec(MapsOf(c), c.ino, c.ino != 0 && LoneEmpty(c.list) && c.list[0].lblk == 0)
  }

  lemma {:induction false} FlushRefines(c: State, next: nat)
    requires Sound(c)
    ensures Sound(Flushed(c, next)) && Abs(Flushed(c, next)) == SpecFlush(Abs(c), next)
    ensures Flushed(c, next).ino in {0, next}
  {
    if c.ino != next && c.ino != 0 {
      RewrittenSameMap(c.list);
      assert MapsOf(Flushed(c, next)) == MapsOf(c);
    }
  }

  lemma {:induction false} ReadRefines(c: State, ino: nat)
    requires Sound(c) && c.ino in {0, ino} && (ino == 0 || ino in c.disk)
    ensures Sound(Loaded(c, ino)) && Abs(Loaded(c, ino)) == SpecRead(Abs(c), ino)
    ensures Loaded(c, ino).ino == ino
  {
    if c.ino != ino {
      LoadNormal(c.disk[ino]);
      assert MapsOf(Loaded(c, ino)) == MapsOf(c);
    }
  }

  lemma {:induction false} CachedMaps(c: State, r: seq<Extent>)
    requires c.ino in c.disk
    ensures MapsOf(c.(list := r)) == MapsOf(c)[c.ino := BlockMap(r)]
  {
    var a, b := MapsOf(c.(list := r)), MapsOf(c)[c.ino := BlockMap(r)];
    assert a.Keys == b.Keys;
    forall i | i in a ensures a[i] == b[i] {
      if i == c.ino { assert a[i] == BlockMap(r); } else { assert a[i] == BlockMap(c.disk[i]); }
    }
  }

  lemma {:induction false} UncachedMaps(c: State, r: seq<Extent>)
    requires c.ino == 0 && 0 !in c.disk
    ensures MapsOf(c.(list := r)) == MapsOf(c)
  {
    var a, b := MapsOf(c.(list := r)), MapsOf(c);
    assert a.Keys == b.Keys;
    forall i | i in a ensures a[i] == b[i] {
      assert a[i] == BlockMap(c.disk[i]);
    }
  }

  /** The guard of an edit of the cached list. */
  ghost predicate EditSafe(c: State, x: Extent, del: bool) {
    c.ino != 0 ==> RangeOk(x, del) && MapSafe(BlockMap(c.list), Abs(c).emptied, x)
  }

  lemma {:induction false} EditRefines(c: State, x: Extent, del: bool, r: seq<Extent>)
    requires Sound(c) && Modify(c.list, x, del, r) && EditSafe(c, x, del)
    ensures Sound(c.(list := r)) && Abs(c.(list := r)) == SpecModify(Abs(c), c.ino, x, del)
  {
    if c.ino != 0 {
      ModifyRefines(c.list, x, del, r);
      CachedMaps(c, r);
      assert Abs(c).maps[c.ino] == BlockMap(c.list);
    } else {
      UncachedMaps(c, r);
    }
  }

  /** Where the guard fails, the map is wrong. */
  lemma {:induction false} EditExact(c: State, x: Extent, del: bool, r: seq<Extent>)
    requires Sound(c) && Modify(c.list, x, del, r) && (c.ino != 0 ==> RangeOk(x, del))
    ensures MapsOf(c.(list := r)) == SpecModify(Abs(c), c.ino, x, del).maps <==> EditSafe(c, x, del)
  {
    if c.ino != 0 {
      MapSafeIffSafe(c.list, x);
      ModifyExact(c.list, x, del, r);
      CachedMaps(c, r);
      UpdatedAlike(MapsOf(c), c.ino, BlockMap(r), Update(BlockMap(c.list), x, del));
      assert Abs(c).maps[c.ino] == BlockMap(c.list);
    } else {
      UncachedMaps(c, r);
    }
  }

  lemma {:induction false} UpdatedAlike(m: map<nat, BlkMap>, i: nat, a: BlkMap, b: BlkMap)
    ensures m[i := a] == m[i := b] <==> a == b
  {
    if m[i := a] == m[i := b] {
      assert m[i := a][i] == m[i := b][i];
    }
  }

  /** The tag's inode is on disk if it has a range to be applied. */
  predicate Present(inodes: set<nat>, t: Tag) {
    match t
    case AddRange(i, _) => i == 0 || i in inodes
    case DelRange(i, _, _) => i == 0 || i in inodes
    case _ => true
  }

  /** The range of the tag is one that can be stored: the bounds of RangeOk. */
  predicate Fits(t: Tag) {
    match t
    case AddRange(_, raw) => RangeOk(Decode(raw), false)
    case DelRange(_, lblk, len) => RangeOk(DelExtent(lblk, len), true)
    case _ => true
  }

  lemma {:induction false} RangeSetsOut(c: State, ino: nat)
    requires Sound(c) && (ino == 0 || ino in c.disk)
    ensures var r := Loaded(Flushed(c, ino), ino);
            && Sound(r) && r.ino == ino && Abs(r) == SpecRead(SpecFlush(Abs(c), ino), ino)
            && (ino != 0 ==> ino in r.disk && Abs(c).maps.Keys == r.disk.Keys
                             && Abs(c).maps[ino] == BlockMap(r.list))
  {
    FlushRefines(c, ino);
    ReadRefines(Flushed(c, ino), ino);
    assert ino != 0 ==> MapsOf(Loaded(Flushed(c, ino), ino))[ino] == BlockMap(Loaded(Flushed(c, ino), ino).list);
  }

  lemma {:induction false} RangeStepRefines(c: State, ino: nat, x: Extent, del: bool, c': State)
    requires Sound(c) && (ino == 0 || ino in c.disk) && RangeStep(c, ino, x, del, c')
    ensures RangeSafe(Abs(c), ino, x, del) ==> Sound(c') && Abs(c') == SpecRange(Abs(c), ino, x, del)
    ensures (ino != 0 ==> RangeOk(x, del)) ==>
              (Abs(c').maps == SpecRange(Abs(c), ino, x, del).maps <==> RangeSafe(Abs(c), ino, x, del))
  {
    hide Flushed, Loaded, Modify, Sound, MapSafe, SpecModify, SpecRead, SpecFlush, MapsOf, RangeOk;
    var r := Loaded(Flushed(c, ino), ino);
    RangeSetsOut(c, ino);
    assert c' == r.(list := c'.list);
    if ino != 0 ==> RangeOk(x, del) {
      EditExact(r, x, del, c'.list);
    }
    if RangeSafe(Abs(c), ino, x, del) {
      EditRefines(r, x, del, c'.list);
    }
  }

  /** One tag on the extent cache is one step over the maps if its guard is met, and gives a
      wrong map of some inode if it is not. */
  lemma {:induction false} StepExact(c: State, t: Tag, c': State)
    requires Sound(c) && Present(c.disk.Keys, t) && TagStep(c, t, c')
    ensures StepSafe(Abs(c), t) ==> Sound(c') && Abs(c') == SpecStep(Abs(c), t)
    ensures Fits(t) ==> (Abs(c').maps == SpecStep(Abs(c), t).maps <==> StepSafe(Abs(c), t))
  {
    hide Flushed, Sound, Abs, SpecFlush, SpecRange, RangeSafe, RangeStep;
    match t
    case AddRange(i, raw) => RangeStepRefines(c, i, Decode(raw), false, c');
    case DelRange(i, lblk, len) => RangeStepRefines(c, i, DelExtent(lblk, len), true, c');
    case Creat(_) | Link(_) => FlushRefines(c, 0);
    case Unlink(i) => FlushRefines(c, i);
    case Inode(i) => FlushRefines(c, i);
    case Tail(_, _) => FlushRefines(c, 0);
    case _ =>
  }

  /** Between two tags the cached inode, if any, is on disk. */
  predicate Known(c: State) {
    c.ino == 0 || c.ino in c.disk
  }

  lemma {:induction false} StepKnown(c: State, t: Tag, c': State)
    requires Known(c) && Present(c.disk.Keys, t) && TagStep(c, t, c')
    ensures Known(c') && c'.disk.Keys == c.disk.Keys
  {
    hide Modify, Rewritten, LoadAll;
  }

  // ---- Whole runs ----

  /** After every tag the maps are those of the tags so far, applied in order. */
  ghost predicate RightThroughout(states: seq<State>, ts: seq<Tag>)
    requires |states| == |ts| + 1
  {
    forall k :: 0 <= k <= |ts| ==> RightAfter(states, ts, k)
  }

  ghost predicate RightAfter(states: seq<State>, ts: seq<Tag>, k: nat)
    requires |states| == |ts| + 1 && k <= |ts|
  {
    Abs(states[k]).maps == SpecRun(Abs(states[0]), ts[..k]).maps
  }

  predicate AllPresent(inodes: set<nat>, ts: seq<Tag>) {
    forall t :: t in ts ==> Present(inodes, t)
  }

  predicate AllFit(ts: seq<Tag>) {
    forall t :: t in ts ==> Fits(t)
  }

  lemma {:induction false} RunKnown(states: seq<State>, ts: seq<Tag>)
    requires Run(states, ts) && Known(states[0]) && AllPresent(states[0].disk.Keys, ts)
    ensures Known(states[|ts|]) && states[|ts|].disk.Keys == states[0].disk.Keys
    decreases |ts|
  {
    hide TagStep, Known, Present;
    if ts != [] {
      var n := |ts| - 1;
      RunLess(states, ts);
      RunKnown(states[..n + 1], ts[..n]);
      StepKnown(states[n], ts[n], states[n + 1]);
    }
  }

  lemma {:induction false} SpecRunMore(st: Spec, ts: seq<Tag>)
    requires ts != []
    ensures var n := |ts| - 1;
            && SpecRun(st, ts) == SpecStep(SpecRun(st, ts[..n]), ts[n])
            && (RunSafe(st, ts) <==> RunSafe(st, ts[..n]) && StepSafe(SpecRun(st, ts[..n]), ts[n]))
  {
    hide SpecStep, StepSafe;
    var n := |ts| - 1;
    assert ts == ts[..n] + [ts[n]];
    SpecRunConcat(st, ts[..n], [ts[n]]);
    assert [ts[n]][1..] == [];
    assert SpecRun(SpecStep(SpecRun(st, ts[..n]), ts[n]), []) == SpecStep(SpecRun(st, ts[..n]), ts[n]);
  }

  /** A run that meets its guards refines the run over the maps. */
  lemma {:induction false} RunRefines(states: seq<State>, ts: seq<Tag>)
    requires Run(states, ts) && Sound(states[0]) && AllPresent(states[0].disk.Keys, ts)
    requires RunSafe(Abs(states[0]), ts)
    ensures Sound(states[|ts|]) && Abs(states[|ts|]) == SpecRun(Abs(states[0]), ts)
    decreases |ts|
  {
    hide TagStep, Sound, Abs, StepSafe, SpecStep, Present;
    if ts != [] {
      var n := |ts| - 1;
      RunLess(states, ts);
      SpecRunMore(Abs(states[0]), ts);
      RunRefines(states[..n + 1], ts[..n]);
      PresentAt(states, ts);
      StepExact(states[n], ts[n], states[n + 1]);
    }
  }

  lemma {:induction false} PresentAt(states: seq<State>, ts: seq<Tag>)
    requires Run(states, ts) && ts != [] && Sound(states[0]) && AllPresent(states[0].disk.Keys, ts)
    ensures Present(states[|ts| - 1].disk.Keys, ts[|ts| - 1])
  {
    hide TagStep, Present;
    var n := |ts| - 1;
    RunLess(states, ts);
    RunKnown(states[..n + 1], ts[..n]);
  }

  /** The maps are right after every tag of a run if and only if every range update of the run
      meets its guard. */
  lemma {:induction false} RunExact(states: seq<State>, ts: seq<Tag>)
    requires Run(states, ts) && Sound(states[0]) && AllPresent(states[0].disk.Keys, ts) && AllFit(ts)
    ensures RightThroughout(states, ts) <==> RunSafe(Abs(states[0]), ts)
    decreases |ts|
  {
    hide TagStep, Sound, Abs, StepSafe, SpecStep, Present, Fits, RightThroughout;
    if ts == [] {
      RightAtFirst(states);
    } else {
      var n := |ts| - 1;
      RunLess(states, ts);
      SpecRunMore(Abs(states[0]), ts);
      RunExact(states[..n + 1], ts[..n]);
      RightMore(states, ts);
      if RunSafe(Abs(states[0]), ts[..n]) {
        RunRefines(states[..n + 1], ts[..n]);
        PresentAt(states, ts);
        assert ts[n] in ts && ts[..|ts|] == ts;
        StepExact(states[n], ts[n], states[n + 1]);
      }
    }
  }

  lemma {:induction false} RightAtFirst(states: seq<State>)
    requires |states| == 1
    ensures RightThroughout(states, [])
  {
  }

  lemma {:induction false} RightMore(states: seq<State>, ts: seq<Tag>)
    requires |states| == |ts| + 1 && ts != []
    ensures RightThroughout(states, ts) <==>
            RightThroughout(states[..|ts|], ts[..|ts| - 1]) && RightAfter(states, ts, |ts|)
  {
    hide Abs;
    var n := |ts| - 1;
    var pre, tags := states[..n + 1], ts[..n];
    forall k: nat | k <= n ensures RightAfter(states, ts, k) <==> RightAfter(pre, tags, k) {
      assert tags[..k] == ts[..k];
    }
  }

  // ---- The replay ----

  /** What the handler of a tag returns. */
  function TagVerdict(inodes: set<nat>, t: Tag): Verdict {
    if t.Unknown? then Canceled else if Present(inodes, t) then Continue else ReadFailed
  }

  /** The first error among the tags. */
  function RunVerdict(inodes: set<nat>, ts: seq<Tag>): Verdict
    decreases |ts|
  {
    if ts == [] then Continue
    else if TagVerdict(inodes, ts[0]) != Continue then TagVerdict(inodes, ts[0])
    else RunVerdict(inodes, ts[1..])
  }

  lemma {:induction false} RunVerdictMeans(inodes: set<nat>, ts: seq<Tag>)
    ensures RunVerdict(inodes, ts) == Continue <==> AllPresent(inodes, ts) && forall t :: t in ts ==> !t.Unknown?
    ensures RunVerdict(inodes, ts) in {Continue, Canceled, ReadFailed}
    ensures (forall t :: t in ts ==> !t.Unknown?) ==> RunVerdict(inodes, ts) != Canceled
    decreases |ts|
  {
    hide Present;
    if ts != [] {
      RunVerdictMeans(inodes, ts[1..]);
      assert ts == [ts[0]] + ts[1..];
    }
  }

  lemma {:induction false} RunVerdictConcat(inodes: set<nat>, a: seq<Tag>, b: seq<Tag>)
    ensures RunVerdict(inodes, a + b) ==
            if RunVerdict(inodes, a) != Continue then RunVerdict(inodes, a) else RunVerdict(inodes, b)
    decreases |a|
  {
    hide TagVerdict;
    if a == [] {
      assert a + b == b;
    } else {
      assert (a + b)[1..] == a[1..] + b;
      RunVerdictConcat(inodes, a[1..], b);
    }
  }

  class Replayer {
    const scan: ScanState
    const list: ExtentList
    const blockMap: Bitmap
    var disk: map<nat, seq<Extent>>

    constructor (chk: Checksum, disk: map<nat, seq<Extent>>)
      ensures fresh(scan) && fresh(list) && fresh(blockMap)
      ensures this.disk == disk && scan.chk == chk && scan.expectedOff == 0 && scan.numTags == 0
    {
      this.scan := new ScanState(chk);
      this.list := new ExtentList();
      this.blockMap := new Bitmap();
      this.disk := disk;
    }

    ghost function Now(): State
      reads this, list
    {
      State(disk, list.ino, list.extents)
    }

    /** ext4_fc_flush_extents */
    method Flush(next: nat)
      modifies this`disk, list
      ensures Now() == Flushed(old(Now()), next)
    {
      if list.ino == next || list.ino == 0 {
        return;
      }
      if list.ino in disk {
        var tree := list.Rewrite();
        disk := disk[list.ino := tree];
      }
      list.Clear();
    }

    /** ext4_fc_read_extents: load the inode's tree unless it is cached already. */
    method ReadExtents(ino: nat) returns (ok: bool)
      modifies list
      ensures ok <==> old(list.ino) == ino || ino in disk
      ensures Now() == Loaded(old(Now()), ino)
    {
      if list.ino == ino {
        return true;
      }
      list.ino := ino;
      if ino !in disk {
        list.extents, list.blocksFreed := [], [];
        return false;
      }
      AllLeaves(disk[ino]);
      list.Load(AsVisits(disk[ino]));
      return true;
    }

    /** The add- and delete-range handlers. */
    method HandleRange(ino: nat, x: Extent, del: bool) returns (ok: bool)
      modifies this`disk, list, blockMap
      ensures ok <==> ino in {0, old(list.ino)} || ino in old(disk)
      ensures ok ==> RangeStep(old(Now()), ino, x, del, Now())
    {
      Flush(ino);
      ok := ReadExtents(ino);
      if ok {
        list.ModifyRange(x, del, blockMap);
      }
    }

    /** One tag: the `switch` of ext4_fc_replay. */
    method ReplayTag(t: Tag) returns (ret: Verdict)
      requires Known(Now())
      modifies this`disk, list, blockMap
      ensures ret == TagVerdict(old(disk).Keys, t) && (ret == Continue || IsError(ret))
      ensures ret == Continue ==> TagStep(old(Now()), t, Now()) && Known(Now()) && disk.Keys == old(disk).Keys
    {
      hide RangeStep, Flushed;
      ret := Continue;
      match t {
        case Creat(_) | Link(_) =>
          Flush(0);
        case Unlink(i) =>
          Flush(i);
        case AddRange(i, raw) =>
          var ok := HandleRange(i, Decode(raw), false);
          if !ok {
            ret := ReadFailed;
          }
        case DelRange(i, lblk, len) =>
          var ok := HandleRange(i, DelExtent(lblk, len), true);
          if !ok {
            ret := ReadFailed;
          }
        case Inode(i) =>
          Flush(i);
        case Tail(_, _) =>
          Flush(0);
        case Pad =>
        case Head(_, _) =>
        case Unknown(_) =>
          ret := Canceled;
      }
      if ret == Continue {
        StepKnown(old(Now()), t, Now());
      }
    }

    /** ext4_fc_replay on one block: at most fc_replay_num_tags tags are applied. */
    method ReplayBlock(block: seq<Tag>) returns (ret: Verdict, ghost states: seq<State>)
      requires Known(Now())
      modifies this`disk, list, blockMap, scan`numTags
      ensures var k := if old(scan.numTags) < |block| then old(scan.numTags) else |block|;
              && (if IsError(ret) then ret else Continue) == RunVerdict(old(disk).Keys, block[..k])
              && (!IsError(ret) ==>
                    && scan.numTags == old(scan.numTags) - k
                    && (ret == Stop ==> scan.numTags == 0)
                    && Run(states, block[..k]) && states[0] == old(Now()) && states[k] == Now()
                    && Known(Now()) && disk.Keys == old(disk).Keys)
    {
      hide TagStep, Known, TagVerdict;
      states := [Now()];
      if scan.numTags == 0 {
        return Stop, states;
      }
      var i := 0;
      ghost var keys := disk.Keys;
      ghost var k := if scan.numTags < |block| then scan.numTags else |block|;
      while i < |block|
        invariant 0 <= i <= k
        invariant scan.numTags == old(scan.numTags) - i
        invariant Known(Now()) && disk.Keys == keys
        invariant Run(states, block[..i]) && states[0] == old(Now()) && states[i] == Now()
        invariant RunVerdict(keys, block[..i]) == Continue
      {
        if scan.numTags == 0 {
          return Stop, states;
        }
        scan.numTags := scan.numTags - 1;
        ghost var c := Now();
        ret := ReplayTag(block[i]);
        assert block[..k][..i] == block[..i] && block[..k][..i + 1] == block[..i + 1];
        VerdictNext(keys, block[..k], i);
        if IsError(ret) {
          return;
        }
        RunMore(states, block[..i], block[i], Now());
        assert block[..i + 1] == block[..i] + [block[i]];
        states := states + [Now()];
        i := i + 1;
      }
      ret := Continue;
    }

    /** The driver: feed the blocks in order until one callback stops or fails. */
    method ReplayPass(blocks: seq<seq<Tag>>) returns (ret: Verdict, ghost states: seq<State>)
      requires scan.numTags <= |Flatten(blocks)| && Known(Now())
      modifies this`disk, list, blockMap, scan`numTags
      ensures (if IsError(ret) then ret else Continue)
              == RunVerdict(old(disk).Keys, Flatten(blocks)[..old(scan.numTags)])
      ensures !IsError(ret) ==>
                && scan.numTags == 0 && Run(states, Flatten(blocks)[..old(scan.numTags)])
                && states[0] == old(Now()) && states[old(scan.numTags)] == Now()
    {
      hide Passing, Run, RunVerdict, Known;
      ret := Continue;
      states := [Now()];
      ghost var all, first := Flatten(blocks)[..scan.numTags], Now();
      ghost var done: seq<Tag>, left, todo := [], all, blocks;
      PassingBegins(all, first);
      for n := 0 to |blocks|
        invariant todo == blocks[n..]
        invariant scan.numTags <= |Flatten(todo)| && left == Flatten(todo)[..scan.numTags]
        invariant Passing(first, all, done, left, states, Now())
      {
        var block := blocks[n];
        ghost var was := scan.numTags;
        FlattenFirst(todo, was);
        PassingKnown(first, all, done, left, states, Now());
        ghost var more, part;
        ret, more := ReplayBlock(block);
        part := block[..if was < |block| then was else |block|];
        if IsError(ret) {
          PassingFails(first, all, done, left, states, old(disk).Keys, part);
          return;
        }
        PassingMore(first, all, done, left, states, part, more, Now());
        states := states[..|done|] + more;
        done, left, todo := done + part, left[|part|..], todo[1..];
        if ret == Stop {
          PassingEnds(first, all, done, left, states, Now());
          return;
        }
      }
      PassingEnds(first, all, done, left, states, Now());
      ret := Continue;
    }

    /** Scan, then replay what the scan found committed.

        The recovery fails if and only if the scan does, or a committed range tag names an inode
        that is not on disk; it never meets an unknown tag.  Otherwise `states` is the run of the
        committed tags, whose maps are right after every tag if and only if every range update
        meets its guard.  If so, the map of every inode on disk is its old map with exactly the
        committed range tags applied in order, and nothing is left in the cache. */
    method Recover(blocks: seq<seq<Tag>>, tid: nat) returns (ret: Verdict, ghost states: seq<State>)
      requires scan.expectedOff == 0 && scan.numTags == 0
      requires 0 !in disk && forall i :: i in disk ==> WellFormed(disk[i])
      requires forall b :: b in blocks ==> b != []
      modifies this`disk, list, blockMap, scan
      ensures var v := ScanVerdict(scan.chk, blocks, tid);
              if IsError(v) then ret == v && disk == old(disk)
              else
                var n := Committed(scan.chk, blocks, tid);
                && n <= |Flatten(blocks)|
                && (IsError(ret) ==> ret == ReadFailed)
                && (IsError(ret) <==> !AllPresent(old(disk).Keys, Flatten(blocks)[..n]))
      ensures !IsError(ret) ==>
                var ts := Flatten(blocks)[..Committed(scan.chk, blocks, tid)];
                && Run(states, ts) && states[0] == State(old(disk), 0, []) && states[|ts|] == Now()
                && (AllFit(ts) ==> (RightThroughout(states, ts) <==> RunSafe(Abs(states[0]), ts)))
                && (RunSafe(Abs(states[0]), ts) ==> list.ino == 0 && AppliedTo(old(disk), disk, ts))
    {
      hide Run, RightThroughout, RunSafe, AllFit, AppliedTo, RunVerdict, Abs, Sound;
      states := [];
      list.Clear();
      ret := scan.ScanPass(blocks, tid);
      if IsError(ret) {
        return;
      }
      CommittedBounds(scan.chk, blocks, tid);
      ghost var ts := Flatten(blocks)[..scan.numTags];
      NoUnknown(scan.chk, blocks, tid);
      RunVerdictMeans(disk.Keys, ts);
      ret, states := ReplayPass(blocks);
      if !IsError(ret) {
        Recovered(states, ts);
      }
    }
  }

  /** The replay pass behind the tags `done`, with `left` still to come. */
  ghost predicate Passing(first: State, all: seq<Tag>, done: seq<Tag>, left: seq<Tag>, states: seq<State>, now: State) {
    && all == done + left && Known(now) && now.disk.Keys == first.disk.Keys
    && Run(states, done) && states[0] == first && states[|done|] == now
    && RunVerdict(first.disk.Keys, done) == Continue
  }

  lemma {:induction false} PassingBegins(all: seq<Tag>, first: State)
    requires Known(first)
    ensures Passing(first, all, [], all, [first], first)
  {
  }

  lemma {:induction false} PassingKnown(first: State, all: seq<Tag>, done: seq<Tag>, left: seq<Tag>,
                                        states: seq<State>, now: State)
    requires Passing(first, all, done, left, states, now)
    ensures Known(now) && now.disk.Keys == first.disk.Keys
    ensures |states| == |done| + 1 && states[|done|] == now
  {
  }

  lemma {:induction false} PassingMore(first: State, all: seq<Tag>, done: seq<Tag>, left: seq<Tag>,
                                       states: seq<State>, part: seq<Tag>, more: seq<State>, now: State)
    requires |states| == |done| + 1 && part <= left && Run(more, part)
    requires Passing(first, all, done, left, states, more[0])
    requires more[|part|] == now && Known(now) && now.disk.Keys == first.disk.Keys
    requires RunVerdict(first.disk.Keys, part) == Continue
    ensures Passing(first, all, done + part, left[|part|..], states[..|done|] + more, now)
  {
    hide StepAt, RunVerdict, Known;
    RunVerdictConcat(first.disk.Keys, done, part);
    RunJoin(states, done, more, part);
  }

  lemma {:induction false} PassingFails(first: State, all: seq<Tag>, done: seq<Tag>, left: seq<Tag>,
                                        states: seq<State>, inodes: set<nat>, part: seq<Tag>)
    requires |states| == |done| + 1 && Passing(first, all, done, left, states, states[|done|])
    requires inodes == first.disk.Keys && part <= left && RunVerdict(inodes, part) != Continue
    ensures RunVerdict(inodes, all) == RunVerdict(inodes, part)
  {
    hide Run, RunVerdict, Known;
    assert left == part + left[|part|..];
    RunVerdictConcat(inodes, done, left);
    RunVerdictConcat(inodes, part, left[|part|..]);
  }

  lemma {:induction false} PassingEnds(first: State, all: seq<Tag>, done: seq<Tag>, left: seq<Tag>,
                                       states: seq<State>, now: State)
    requires Passing(first, all, done, left, states, now) && left == []
    ensures RunVerdict(first.disk.Keys, all) == Continue
    ensures Run(states, all) && states[0] == first && states[|all|] == now
  {
    hide StepAt, RunVerdict, Known;
    assert all == done;
  }

  lemma {:induction false} FlattenFirst(blocks: seq<seq<Tag>>, n: nat)
    requires blocks != [] && n <= |Flatten(blocks)|
    ensures var k := if n < |blocks[0]| then n else |blocks[0]|;
            && n - k <= |Flatten(blocks[1..])|
            && blocks[0][..k] <= Flatten(blocks)[..n]
            && Flatten(blocks)[..n][k..] == Flatten(blocks[1..])[..n - k]
  {
    assert Flatten(blocks) == blocks[0] + Flatten(blocks[1..]);
  }

  lemma {:induction false} VerdictNext(inodes: set<nat>, ts: seq<Tag>, i: nat)
    requires i < |ts| && RunVerdict(inodes, ts[..i]) == Continue
    ensures RunVerdict(inodes, ts[..i + 1]) == TagVerdict(inodes, ts[i])
    ensures TagVerdict(inodes, ts[i]) != Continue ==> RunVerdict(inodes, ts) == TagVerdict(inodes, ts[i])
  {
    hide TagVerdict;
    assert ts[..i + 1] == ts[..i] + [ts[i]];
    assert ts == ts[..i + 1] + ts[i + 1..];
    RunVerdictConcat(inodes, ts[..i], [ts[i]]);
    RunVerdictConcat(inodes, ts[..i + 1], ts[i + 1..]);
    assert [ts[i]][1..] == [] && RunVerdict(inodes, []) == Continue;
  }

  lemma {:induction false} CommittedBounds(chk: Checksum, blocks: seq<seq<Tag>>, tid: nat)
    ensures var n := Committed(chk, blocks, tid);
            n <= |Flatten(blocks)| && (n == 0 || Flatten(blocks)[n - 1].Tail?)
  {
    if StartsWithHead(blocks) {
      CommittedIsLatestTail(chk, blocks, tid, 0);
    }
  }

  lemma {:induction false} NoUnknown(chk: Checksum, blocks: seq<seq<Tag>>, tid: nat)
    requires Committed(chk, blocks, tid) <= |Flatten(blocks)|
    ensures forall t :: t in Flatten(blocks)[..Committed(chk, blocks, tid)] ==> !t.Unknown?
  {
    if StartsWithHead(blocks) {
      CommittedIsLatestTail(chk, blocks, tid, 0);
    }
  }

  /** `after` holds the inodes of `before`, each with its map updated by the tags in order. */
  ghost predicate AppliedTo(before: map<nat, seq<Extent>>, after: map<nat, seq<Extent>>, ts: seq<Tag>)
  {
    && after.Keys == before.Keys
    && forall i :: i in before ==>
         WellFormed(after[i]) && BlockMap(after[i]) == ApplyTags(BlockMap(before[i]), i, ts)
  }

  /** What the run of the committed tags comes to. */
  lemma {:induction false} Recovered(states: seq<State>, ts: seq<Tag>)
    requires Run(states, ts) && AllPresent(states[0].disk.Keys, ts)
    requires states[0].ino == 0 && 0 !in states[0].disk
    requires forall i :: i in states[0].disk ==> WellFormed(states[0].disk[i])
    requires ts == [] || ts[|ts| - 1].Tail?
    ensures AllFit(ts) ==> (RightThroughout(states, ts) <==> RunSafe(Abs(states[0]), ts))
    ensures RunSafe(Abs(states[0]), ts) ==>
              states[|ts|].ino == 0 && AppliedTo(states[0].disk, states[|ts|].disk, ts)
  {
    hide StepAt, RightThroughout, RunSafe, AllFit, AllPresent;
    if AllFit(ts) {
      RunExact(states, ts);
    }
    if RunSafe(Abs(states[0]), ts) {
      RunRefines(states, ts);
      RecoveredMaps(states[0], states[|ts|], ts);
    }
  }

  lemma {:induction false} RecoveredMaps(before: State, after: State, ts: seq<Tag>)
    requires before.ino == 0 && 0 !in before.disk && (ts == [] || ts[|ts| - 1].Tail?)
    requires Sound(after) && Abs(after) == SpecRun(Abs(before), ts)
    ensures after.ino == 0 && AppliedTo(before.disk, after.disk, ts)
  {
    hide WellFormed, LoneEmpty, Normal;
    var start := Abs(before);
    var st := SpecRun(start, ts);
    if ts != [] {
      TailFlushes(start, ts);
    }
    SpecRunKeys(start, ts);
    assert after.disk.Keys == st.maps.Keys == start.maps.Keys == before.disk.Keys;
    forall i | i in before.disk
      ensures WellFormed(after.disk[i])
      ensures BlockMap(after.disk[i]) == ApplyTags(BlockMap(before.disk[i]), i, ts)
    {
      assert i in start.maps;
      SpecRunApplies(start, ts, i);
      assert start.maps[i] == BlockMap(before.disk[i]);
      assert st.maps[i] == BlockMap(after.disk[i]);
    }
  }

  lemma {:induction false} SpecRunKeys(st: Spec, ts: seq<Tag>)
    ensures SpecRun(st, ts).maps.Keys == st.maps.Keys
    decreases |ts|
  {
    hide SpecStep;
    if ts != [] {
      SpecStepKeys(st, ts[0]);
      SpecRunKeys(SpecStep(st, ts[0]), ts[1..]);
    }
  }

  lemma {:induction false} SpecStepKeys(st: Spec, t: Tag)
    ensures SpecStep(st, t).maps.Keys == st.maps.Keys
  {
    hide SpecRange;
    match t
    case AddRange(i, raw) => SpecRangeKeys(st, i, Decode(raw), false);
    case DelRange(i, lblk, len) => SpecRangeKeys(st, i, DelExtent(lblk, len), true);
    case _ =>
  }

  function AsVisits(es: seq<Extent>): seq<Visit> {
    seq(|es|, i requires 0 <= i < |es| => Leaf(es[i]))
  }

  lemma {:induction false} AllLeaves(es: seq<Extent>)
    ensures Leaves(AsVisits(es)) == es
  {
    if es != [] {
      assert AsVisits(es)[1..] == AsVisits(es[1..]);
      AllLeaves(es[1..]);
      assert es == [es[0]] + es[1..];
    }
  }
}
