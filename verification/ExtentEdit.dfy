/** What one range update does to a list of extents (e2fsck/journal.c).

    `Punch` is the loop that cuts the range out of the list, `Merged` the run of
    neighbour merges behind the sort.  The two calls of `qsort` are specified only
    as "some permutation in this order". */
module ExtentEdit {
  import opened Extents

  // ---- Cutting a range out of the list ----

  /** `int offset`: the distance from the start of `e` to the block behind the range `x`. */
  function Offset(e: Extent, x: Extent): int {
    ToInt32(ExEnd(x) + 1 - e.lblk)
  }

  function KeepFront(e: Extent, x: Extent): Extent {
    e.(len := Wrap32(x.lblk - e.lblk))
  }

  function KeepBack(e: Extent, x: Extent): Extent {
    var offset := Offset(e, x);
    e.(lblk := Wrap64(e.lblk + offset), pblk := Wrap64(e.pblk + offset), len := Wrap32(e.len - offset))
  }

  /** No overlap: `e` ends before the range, or starts behind it. */
  predicate Misses(e: Extent, x: Extent) {
    ExEnd(e) < x.lblk || e.lblk > ExEnd(x)
  }

  /** The loop breaks at `e`: the range ends before `e` does. */
  predicate Stops(e: Extent, x: Extent) {
    ExEnd(e) >= x.lblk && (e.lblk > ExEnd(x) || ExEnd(e) > ExEnd(x))
  }

  /** What one round of the loop leaves in the place of `e`. */
  function Pieces(e: Extent, x: Extent): seq<Extent> {
    if Misses(e, x) then [e]
    else if e.lblk < x.lblk && ExEnd(e) > ExEnd(x) then [KeepFront(e, x), KeepBack(e, x)]
    else if x.lblk <= e.lblk && ExEnd(e) <= ExEnd(x) then [e.(len := 0)]
    else if ExEnd(e) > ExEnd(x) then [KeepBack(e, x)]
    else [KeepFront(e, x)]
  }

  function Punch(s: seq<Extent>, x: Extent): seq<Extent> {
    if s == [] then []
    else Pieces(s[0], x) + if Stops(s[0], x) then s[1..] else Punch(s[1..], x)
  }

  function Phys(e: Extent): set<nat> {
    set b: nat | e.lblk <= b < e.lblk + e.len :: At(e, b).pblk
  }

  /** The physical blocks whose bits the loop clears: those of every overlapping extent. */
  function Unmarked(s: seq<Extent>, x: Extent): set<nat> {
    if s == [] then {}
    else
      (if Misses(s[0], x) then {} else Phys(s[0]))
      + if Stops(s[0], x) then {} else Unmarked(s[1..], x)
  }

  /** The physical blocks whose bits are set at the end. */
  function PhysAll(s: seq<Extent>): set<nat> {
    if s == [] then {} else Phys(s[0]) + PhysAll(s[1..])
  }

  // ---- Sorting and merging ----

  ghost predicate InLblkOrder(t: seq<Extent>) {
    forall i, j :: 0 <= i < j < |t| ==> t[i].lblk <= t[j].lblk
  }

  /** `t` holds exactly the non-empty extents of `s`, ordered by logical block. */
  ghost predicate StrippedAndSorted(s: seq<Extent>, t: seq<Extent>) {
    && (forall e :: multiset(t)[e] == if e.len > 0 then multiset(s)[e] else 0)
    && InLblkOrder(t)
  }

  function Join(a: Extent, b: Extent): Extent {
    a.(len := Wrap32(a.len + b.len))
  }

  function Merged(t: seq<Extent>): seq<Extent>
    decreases |t|
  {
    if |t| < 2 then t
    else if Mergeable(t[0], t[1]) then Merged([Join(t[0], t[1])] + t[2..])
    else [t[0]] + Merged(t[1..])
  }

  /** `r` is a possible outcome of ex_sort_and_merge on `s`. */
  ghost predicate SortMerge(s: seq<Extent>, r: seq<Extent>) {
    if |s| < 2 then r == s
    else exists t :: StrippedAndSorted(s, t) && r == Merged(t)
  }

  function WithAdded(s: seq<Extent>, x: Extent, del: bool): seq<Extent> {
    Punch(s, x) + if x.len > 0 && !del then [x] else []
  }

  /** `r` is a possible outcome of ext4_modify_extent_list on `s`. */
  ghost predicate Modify(s: seq<Extent>, x: Extent, del: bool, r: seq<Extent>) {
    SortMerge(WithAdded(s, x, del), r)
  }

  // ---- What the update should do ----

  predicate InHole(x: Extent, b: nat) {
    x.lblk <= b < x.lblk + x.len
  }

  /** Map update: forget the range, then add the new extent unless deleting. */
  ghost function Update(m: map<nat, Mapped>, x: Extent, del: bool): map<nat, Mapped> {
    var kept := map b | b in m && !InHole(x, b) :: m[b];
    if del then kept else kept + ExtentMap(x)
  }

  /** An emptied extent left alone in the list: the sort's early return does not strip it. */
  predicate LoneEmpty(s: seq<Extent>) {
    |s| == 1 && s[0].len == 0 && InRangeOrEmpty(s[0])
  }

  /** The lists the replay cache can hold between two updates. */
  predicate Editable(s: seq<Extent>) {
    WellFormed(s) || LoneEmpty(s)
  }

  /** The two fields of a range are 32 bits wide in the tags. */
  predicate Fields32(x: Extent) {
    x.lblk < 0x1_0000_0000 && x.len < 0x1_0000_0000
  }

  /** A range as the tags carry it, and inside the address ranges if it is to be added. */
  predicate RangeOk(x: Extent, del: bool) {
    Fields32(x) && (!del && x.len > 0 ==> InRange(x))
  }

  /** Extent `e` meets the range and reaches beyond its end. */
  predicate ReachesBeyond(e: Extent, x: Extent) {
    e.lblk <= ExEnd(x) < e.lblk + e.len - 1 && x.lblk <= e.lblk + e.len - 1
  }

  /** The inputs on which the update is exact: the range does not have block 0 and
      length 0 (its last block would wrap) unless there is nothing to lose; the list is
      not an emptied extent at block 0 (its last block would wrap) unless the range
      is empty as well; and no offset into a kept extent overflows an `int`. */
  predicate Safe(s: seq<Extent>, x: Extent) {
    && (x.lblk == 0 && x.len == 0 ==> forall i :: 0 <= i < |s| ==> s[i].len == 0)
    && (LoneEmpty(s) && s[0].lblk == 0 ==> x.len == 0 && x.lblk < 0x8000_0000)
    && (forall i :: 0 <= i < |s| && ReachesBeyond(s[i], x) ==> ExEnd(x) + 1 - s[i].lblk < 0x8000_0000)
  }

  // ---- The loop removes exactly the range ----

  lemma {:induction false} TailSorted(s: seq<Extent>)
    requires Sorted(s) && s != []
    ensures Sorted(s[1..])
    ensures forall f :: f in s[1..] ==> Before(s[0], f)
  {
    forall f | f in s[1..] ensures Before(s[0], f) {
      var j :| 0 <= j < |s| - 1 && s[1..][j] == f;
      assert f == s[j + 1];
    }
  }

  lemma {:induction false} SortedConcat(s: seq<Extent>, t: seq<Extent>)
    requires Sorted(s) && Sorted(t) && forall e, f :: e in s && f in t ==> Before(e, f)
    ensures Sorted(s + t)
  {
    var r := s + t;
    forall i, j | 0 <= i < j < |r| ensures Before(r[i], r[j]) {
      if i < |s| <= j { assert r[i] in s && r[j] in t; }
    }
  }

  lemma {:induction false} SortedCons(e: Extent, t: seq<Extent>)
    requires InRangeOrEmpty(e) && Sorted(t) && forall f :: f in t ==> Before(e, f)
    ensures Sorted([e] + t)
  {
    SortedConcat([e], t);
  }

  /** A well-formed list and a range whose last block does not wrap. */
  predicate Plain(s: seq<Extent>, x: Extent) {
    WellFormed(s) && Fields32(x) && x.lblk + x.len > 0
  }

  predicate Cuttable(s: seq<Extent>, x: Extent) {
    Plain(s, x) && Safe(s, x)
  }

  lemma {:induction false} CuttableTail(s: seq<Extent>, x: Extent)
    requires Cuttable(s, x) && s != []
    ensures Cuttable(s[1..], x)
  {
    forall i | 0 <= i < |s[1..]| && ReachesBeyond(s[1..][i], x)
      ensures ExEnd(x) + 1 - s[1..][i].lblk < 0x8000_0000
    {
      assert s[1..][i] == s[i + 1];
    }
  }

  /** One round of the loop in plain arithmetic, when neither end wraps. */
  lemma {:induction false} PiecesValue(e: Extent, x: Extent)
    requires InRange(e) && Fields32(x) && x.lblk + x.len > 0
    ensures Stops(e, x) <==> e.lblk + e.len > x.lblk + x.len
    ensures ReachesBeyond(e, x) && ExEnd(x) + 1 - e.lblk < 0x8000_0000 ==>
              var d := x.lblk + x.len - e.lblk;
              KeepBack(e, x) == e.(lblk := e.lblk + d, pblk := e.pblk + d, len := e.len - d)
    ensures Pieces(e, x) ==
            (if e.lblk + e.len <= x.lblk || e.lblk >= x.lblk + x.len then [e]
             else (if e.lblk < x.lblk then [e.(len := x.lblk - e.lblk)]
                   else if e.lblk + e.len <= x.lblk + x.len then [e.(len := 0)] else [])
                  + (if e.lblk + e.len > x.lblk + x.len then [KeepBack(e, x)] else []))
  {
    assert ExEnd(e) == e.lblk + e.len - 1 && ExEnd(x) == x.lblk + x.len - 1;
  }

  lemma {:induction false} PiecesSorted(e: Extent, x: Extent)
    requires Cuttable([e], x)
    ensures Sorted(Pieces(e, x))
    ensures forall f :: f in Pieces(e, x) ==> e.lblk <= f.lblk && f.lblk + f.len <= e.lblk + e.len
  {
    assert ReachesBeyond([e][0], x) ==> ExEnd(x) + 1 - e.lblk < 0x8000_0000;
    PiecesValue(e, x);
  }

  lemma {:induction false} PiecesMap(e: Extent, x: Extent, b: nat, m: Mapped)
    requires Cuttable([e], x)
    ensures Maps(Pieces(e, x), b, m) <==> Covers(e, b) && At(e, b) == m && !InHole(x, b)
  {
    assert ReachesBeyond([e][0], x) ==> ExEnd(x) + 1 - e.lblk < 0x8000_0000;
    PiecesValue(e, x);
    var p := Pieces(e, x);
    if Covers(e, b) && At(e, b) == m && !InHole(x, b) {
      var f := if b < x.lblk then p[0] else p[|p| - 1];
      assert f in p && Covers(f, b) && At(f, b) == m;
    }
  }

  lemma {:induction false} CuttableHead(s: seq<Extent>, x: Extent)
    requires Cuttable(s, x) && s != []
    ensures Cuttable([s[0]], x)
  {
    assert forall i :: 0 <= i < |[s[0]]| ==> [s[0]][i] == s[0];
  }

  lemma {:induction false} PunchSorted(s: seq<Extent>, x: Extent)
    requires Cuttable(s, x)
    ensures Sorted(Punch(s, x))
    ensures forall f :: f in Punch(s, x) ==> s[0].lblk <= f.lblk
  {
    if s != [] {
      var e, t := s[0], s[1..];
      TailSorted(s);
      CuttableTail(s, x);
      CuttableHead(s, x);
      PunchSorted(t, x);
      PiecesSorted(e, x);
      var rest := if Stops(e, x) then t else Punch(t, x);
      forall f | f in rest ensures e.lblk + e.len <= f.lblk {
        if t != [] { assert Before(e, t[0]); }
      }
      SortedConcat(Pieces(e, x), rest);
    }
  }

  lemma {:induction false} PunchMaps(s: seq<Extent>, x: Extent, b: nat, m: Mapped)
    requires Cuttable(s, x)
    ensures Maps(Punch(s, x), b, m) <==> Maps(s, b, m) && !InHole(x, b)
  {
    if s != [] {
      var e, t := s[0], s[1..];
      TailSorted(s);
      CuttableTail(s, x);
      CuttableHead(s, x);
      assert s == [e] + t;
      MapsCons(e, t, b, m);
      PiecesMap(e, x, b, m);
      PunchMaps(t, x, b, m);
      MapsConcat(Pieces(e, x), if Stops(e, x) then t else Punch(t, x), b, m);
      if Stops(e, x) {
        PiecesValue(e, x);
        assert Maps(t, b, m) ==> !InHole(x, b);
      }
    }
  }

  // ---- Sorting: a disjoint list in logical order ----

  ghost predicate Apart(s: seq<Extent>) {
    && (forall i :: 0 <= i < |s| ==> InRangeOrEmpty(s[i]))
    && (forall i, j :: 0 <= i < j < |s| ==>
          s[i].len == 0 || s[j].len == 0 || Before(s[i], s[j]) || Before(s[j], s[i]))
  }

  lemma {:induction false} ApartOnce(s: seq<Extent>, e: Extent)
    requires Apart(s) && e.len > 0
    ensures multiset(s)[e] <= 1
  {
    if s != [] {
      ApartOnce(s[1..], e);
      assert s == [s[0]] + s[1..];
    }
  }

  lemma {:induction false} OnceDistinct(t: seq<Extent>, i: nat, j: nat)
    requires i < j < |t| && multiset(t)[t[i]] <= 1
    ensures t[i] != t[j]
  {
    assert t == t[..i] + [t[i]] + t[i + 1..];
    assert t[j] in t[i + 1..] by { assert t[i + 1..][j - i - 1] == t[j]; }
    assert multiset(t)[t[i]] == multiset(t[..i])[t[i]] + 1 + multiset(t[i + 1..])[t[i]];
  }

  lemma {:induction false} StrippedMembers(s: seq<Extent>, t: seq<Extent>)
    requires StrippedAndSorted(s, t)
    ensures forall e :: e in t <==> e in s && e.len > 0
  {
    forall e ensures e in t <==> e in s && e.len > 0 {
      assert e in t <==> multiset(t)[e] > 0;
      assert e in s <==> multiset(s)[e] > 0;
    }
  }

  lemma {:induction false} StrippedWellFormed(s: seq<Extent>, t: seq<Extent>)
    requires Apart(s) && StrippedAndSorted(s, t)
    ensures WellFormed(t)
    ensures forall b: nat, m :: Maps(t, b, m) <==> Maps(s, b, m)
  {
    StrippedMembers(s, t);
    forall i | 0 <= i < |t| ensures InRange(t[i]) {
      assert t[i] in t;
    }
    forall i, j | 0 <= i < j < |t| ensures Before(t[i], t[j]) {
      assert t[i] in t && t[j] in t;
      ApartOnce(s, t[i]);
      OnceDistinct(t, i, j);
      var k :| 0 <= k < |s| && s[k] == t[i];
      var l :| 0 <= l < |s| && s[l] == t[j];
      assert k != l;
    }
  }

  // ---- Merging: a normal form of the same map ----

  lemma {:induction false} MergeableValue(a: Extent, b: Extent)
    requires InRange(a)
    ensures Mergeable(a, b) <==>
            a.lblk + a.len == b.lblk && a.pblk + a.len == b.pblk && a.uninit == b.uninit
  {
  }

  /** Joining the first two extents keeps the list well formed and its map. */
  lemma {:induction false} JoinFirst(t: seq<Extent>) returns (u: seq<Extent>)
    requires WellFormed(t) && |t| >= 2 && Mergeable(t[0], t[1])
    ensures u == [Join(t[0], t[1])] + t[2..] && WellFormed(u)
    ensures forall b: nat, m :: Maps(u, b, m) <==> Maps(t, b, m)
  {
    var j, rest := Join(t[0], t[1]), t[2..];
    u := [j] + rest;
    MergeableValue(t[0], t[1]);
    assert j == t[0].(len := t[0].len + t[1].len);
    forall f | f in rest ensures Before(j, f) {
      var k :| 0 <= k < |rest| && rest[k] == f;
      assert Before(t[1], t[k + 2]);
    }
    SortedCons(j, rest);
    assert t == [t[0]] + ([t[1]] + rest);
    forall b: nat, m ensures Maps(u, b, m) <==> Maps(t, b, m) {
      MapsCons(j, rest, b, m);
      MapsCons(t[1], rest, b, m);
      MapsCons(t[0], [t[1]] + rest, b, m);
    }
  }

  /** An extent that cannot be joined to the head of a normal list may be put before it. */
  lemma {:induction false} NormalCons(e: Extent, v: seq<Extent>)
    requires InRange(e) && Normal(v) && v != [] && Before(e, v[0]) && !Mergeable(e, v[0])
    ensures Normal([e] + v)
  {
    forall f | f in v ensures Before(e, f) {
      var k :| 0 <= k < |v| && v[k] == f;
      if k > 0 { assert Before(v[0], v[k]); }
    }
    SortedCons(e, v);
    var r := [e] + v;
    forall i | 0 <= i < |r| - 1 ensures !Mergeable(r[i], r[i + 1]) {
      if i > 0 { assert r[i] == v[i - 1] && r[i + 1] == v[(i - 1) + 1]; }
    }
  }

  ghost predicate SameHead(s: seq<Extent>, t: seq<Extent>) {
    if s == [] then t == []
    else t != [] && s[0].lblk == t[0].lblk && s[0].pblk == t[0].pblk && s[0].uninit == t[0].uninit
  }

  lemma {:induction false} MergedNormal(t: seq<Extent>)
    requires WellFormed(t)
    ensures Normal(Merged(t)) && SameHead(t, Merged(t))
    ensures forall b: nat, m :: Maps(Merged(t), b, m) <==> Maps(t, b, m)
    decreases |t|
  {
    if |t| < 2 {
    } else if Mergeable(t[0], t[1]) {
      var u := JoinFirst(t);
      MergedNormal(u);
    } else {
      var u := t[1..];
      TailSorted(t);
      MergedNormal(u);
      assert Before(t[0], u[0]);
      MergeableValue(t[0], u[0]);
      MergeableValue(t[0], Merged(u)[0]);
      NormalCons(t[0], Merged(u));
      assert t == [t[0]] + u;
      forall b: nat, m ensures Maps([t[0]] + Merged(u), b, m) <==> Maps(t, b, m) {
        MapsCons(t[0], u, b, m);
        MapsCons(t[0], Merged(u), b, m);
      }
    }
  }

  /** ex_sort_and_merge keeps the map and leaves a normal form, whatever order qsort picks
      among equals; only a list of fewer than two extents is returned untouched. */
  lemma {:induction false} SortMergeNormal(s: seq<Extent>, r: seq<Extent>)
    requires Apart(s) && SortMerge(s, r)
    ensures forall b: nat, m :: Maps(r, b, m) <==> Maps(s, b, m)
    ensures Normal(r) || LoneEmpty(r)
  {
    if |s| >= 2 {
      var t :| StrippedAndSorted(s, t) && r == Merged(t);
      StrippedWellFormed(s, t);
      MergedNormal(t);
    }
  }

  // ---- The update of a list is the update of its map ----

  lemma {:induction false} PunchAddApart(s: seq<Extent>, x: Extent, del: bool)
    requires Cuttable(s, x) && RangeOk(x, del)
    ensures Apart(WithAdded(s, x, del))
  {
    PunchSorted(s, x);
    var p := Punch(s, x);
    var w := WithAdded(s, x, del);
    forall i, j | 0 <= i < j < |w|
      ensures w[i].len == 0 || w[j].len == 0 || Before(w[i], w[j]) || Before(w[j], w[i])
    {
      if j == |p| && w[i].len > 0 {
        var f := w[i];
        assert f in p;
        var b := if f.lblk < x.lblk then x.lblk else f.lblk;
        if Covers(f, b) {
          assert Maps(p, b, At(f, b));
          PunchMaps(s, x, b, At(f, b));
        }
      } else if j < |p| {
        assert Before(p[i], p[j]);
      }
    }
  }

  lemma {:induction false} TwoStripped(h: Extent, k: Extent, t: seq<Extent>)
    requires h.len > 0 && k.len > 0 && h.lblk < k.lblk
    requires StrippedAndSorted([h, k], t)
    ensures t == [h, k]
  {
    StrippedMembers([h, k], t);
    assert multiset(t) == multiset([h, k]);
    assert |t| == |multiset(t)| == 2;
    assert h in t && k in t;
  }

  /** An empty range at block 0 < a cuts an emptied extent at block 0 in two. */
  function EmptyCut(e: Extent, a: nat): (Extent, Extent)
    requires a < 0x1_0000_0000
  {
    (e.(len := a), Extent(a, Wrap64(e.pblk + a), 0x1_0000_0000 - a, e.uninit, e.otherFlags))
  }

  lemma {:induction false} CutLoneEmpty(e: Extent, x: Extent)
    requires LoneEmpty([e]) && e.lblk == 0 && x.len == 0 && 0 < x.lblk < 0x8000_0000
    ensures Punch([e], x) == [EmptyCut(e, x.lblk).0, EmptyCut(e, x.lblk).1]
  {
    assert ExEnd(e) == 0xFFFF_FFFF_FFFF_FFFF && ExEnd(x) == x.lblk - 1;
    assert Offset(e, x) == x.lblk;
    assert KeepBack(e, x) == EmptyCut(e, x.lblk).1;
    assert KeepFront(e, x) == EmptyCut(e, x.lblk).0;
    assert [e][1..] == [];
  }

  lemma {:induction false} EmptyCutMerges(e: Extent, a: nat)
    requires e.lblk == 0 && e.len == 0 && 0 < a < 0x8000_0000
    ensures var (h, k) := EmptyCut(e, a); Mergeable(h, k) && Join(h, k) == e
  {
    var (h, k) := EmptyCut(e, a);
    assert ExPend(h) == Wrap64(e.pblk + a - 1);
    assert Wrap64(ExPend(h) + 1) == Wrap64(e.pblk + a);
    assert Wrap32(h.len + k.len) == 0;
  }

  lemma {:induction false} MergedPair(h: Extent, k: Extent)
    requires Mergeable(h, k)
    ensures Merged([h, k]) == [Join(h, k)]
  {
    assert [Join(h, k)] + [h, k][2..] == [Join(h, k)];
  }

  /** The lengths of the two pieces add up to 2^32; the merge wraps them back to nothing. */
  lemma {:induction false} LoneEmptyAtZero(e: Extent, x: Extent, r: seq<Extent>)
    requires LoneEmpty([e]) && e.lblk == 0 && x.len == 0 && 0 < x.lblk < 0x8000_0000
    requires SortMerge(Punch([e], x), r)
    ensures r == [e]
  {
    var (h, k) := EmptyCut(e, x.lblk);
    CutLoneEmpty(e, x);
    var t :| StrippedAndSorted([h, k], t) && r == Merged(t);
    TwoStripped(h, k, t);
    EmptyCutMerges(e, x.lblk);
    MergedPair(h, k);
  }

  lemma {:induction false} PunchLoneEmpty(e: Extent, x: Extent)
    requires LoneEmpty([e]) && Fields32(x) && (e.lblk > 0 || x.lblk + x.len == 0)
    ensures Punch([e], x) == [e]
  {
    assert [e][1..] == [];
    assert e.(len := 0) == e;
    if x.lblk + x.len > 0 {
      assert ExEnd(e) == e.lblk - 1 && ExEnd(x) == x.lblk + x.len - 1;
    }
  }

  lemma {:induction false} AddToLoneEmpty(e: Extent, x: Extent, del: bool, r: seq<Extent>)
    requires LoneEmpty([e]) && RangeOk(x, del)
    requires SortMerge([e] + if x.len > 0 && !del then [x] else [], r)
    ensures BlockMap(r) == Update(map[], x, del)
    ensures Normal(r) || LoneEmpty(r)
  {
    hide SortMerge, Update, Normal, LoneEmpty;
    LoneInRange(e);
    assert BlockMap([]) == map[];
    var added := if x.len > 0 && !del then [x] else [];
    SortMergeNormal([e] + added, r);
    forall b: nat, m ensures Maps(r, b, m) <==> !del && Covers(x, b) && At(x, b) == m {
      MapsConcat([e], added, b, m);
    }
    InOrder(r);
    UpdateFromMaps([], x, del, r);
  }

  lemma {:induction false} LoneInRange(e: Extent)
    requires LoneEmpty([e])
    ensures InRangeOrEmpty(e) && e.len == 0
  {
    assert [e][0] == e;
  }

  lemma {:induction false} InOrder(r: seq<Extent>)
    ensures Normal(r) || LoneEmpty(r) ==> Sorted(r)
  {
  }

  lemma {:induction false} ModifyLoneEmpty(e: Extent, x: Extent, del: bool, r: seq<Extent>)
    requires LoneEmpty([e]) && RangeOk(x, del) && Safe([e], x) && Modify([e], x, del, r)
    ensures BlockMap(r) == Update(map[], x, del)
    ensures Normal(r) || LoneEmpty(r)
  {
    if e.lblk == 0 && x.lblk > 0 {
      assert WithAdded([e], x, del) == Punch([e], x);
      LoneEmptyAtZero(e, x, r);
    } else {
      PunchLoneEmpty(e, x);
      AddToLoneEmpty(e, x, del, r);
    }
  }

  lemma {:induction false} ModifyWellFormed(s: seq<Extent>, x: Extent, del: bool, r: seq<Extent>)
    requires WellFormed(s) && RangeOk(x, del) && Safe(s, x) && Modify(s, x, del, r)
    ensures forall b: nat, m :: Maps(r, b, m) <==>
              (Maps(s, b, m) && !InHole(x, b)) || (!del && Covers(x, b) && At(x, b) == m)
    ensures Normal(r) || LoneEmpty(r)
  {
    if x.lblk + x.len == 0 {
      assert s == [];
    } else {
      PunchAddApart(s, x, del);
      SortMergeNormal(WithAdded(s, x, del), r);
      forall b: nat, m
        ensures Maps(r, b, m) <==>
                (Maps(s, b, m) && !InHole(x, b)) || (!del && Covers(x, b) && At(x, b) == m)
      {
        PunchMaps(s, x, b, m);
        MapsConcat(Punch(s, x), if x.len > 0 && !del then [x] else [], b, m);
      }
    }
  }

  /** On every safe input ext4_modify_extent_list is map update, for every pattern of
      overlap, and it leaves a normal form (or one emptied extent). */
  lemma {:induction false} ModifyIsUpdate(s: seq<Extent>, x: Extent, del: bool, r: seq<Extent>)
    requires Editable(s) && RangeOk(x, del) && Safe(s, x) && Modify(s, x, del, r)
    ensures BlockMap(r) == Update(BlockMap(s), x, del)
    ensures Normal(r) || LoneEmpty(r)
  {
    hide Modify, Update, BlockMap, Safe, RangeOk, Normal, Sorted;
    if LoneEmpty(s) {
      EmptiedMap(s);
      ModifyLoneEmpty(s[0], x, del, r);
    } else {
      ModifyWellFormed(s, x, del, r);
      InOrder(r);
      UpdateFromMaps(s, x, del, r);
    }
  }

  lemma {:induction false} EmptiedMap(s: seq<Extent>)
    requires |s| == 1 && s[0].len == 0
    ensures s == [s[0]] && BlockMap(s) == map[]
  {
    assert s[1..] == [];
  }

  lemma {:induction false} UpdateFromMaps(s: seq<Extent>, x: Extent, del: bool, r: seq<Extent>)
    requires Sorted(s) && Sorted(r)
    requires forall b: nat, m :: Maps(r, b, m) <==>
               (Maps(s, b, m) && !InHole(x, b)) || (!del && Covers(x, b) && At(x, b) == m)
    ensures BlockMap(r) == Update(BlockMap(s), x, del)
  {
    hide Sorted, Maps, BlockMap;
    var u := Update(BlockMap(s), x, del);
    forall b | b in BlockMap(r) ensures b in u && u[b] == BlockMap(r)[b] {
      BlockMapMaps(r, b, BlockMap(r)[b]);
      BlockMapMaps(s, b, BlockMap(r)[b]);
    }
    forall b | b in u ensures b in BlockMap(r) {
      BlockMapMaps(r, b, u[b]);
      BlockMapMaps(s, b, u[b]);
    }
  }

  // ---- Block bitmap accounting ----

  /** The physical blocks that `s` maps inside the range. */
  ghost function HolePhys(s: seq<Extent>, x: Extent): set<nat> {
    set b | b in BlockMap(s) && InHole(x, b) :: BlockMap(s)[b].pblk
  }

  lemma {:induction false} PhysAllMembers(s: seq<Extent>, p: nat)
    ensures p in PhysAll(s) <==> exists e :: e in s && p in Phys(e)
  {
    if s != [] {
      PhysAllMembers(s[1..], p);
      assert s == [s[0]] + s[1..];
      if e :| e in s && p in Phys(e) {
        assert e == s[0] || e in s[1..];
      }
    }
  }

  lemma {:induction false} PhysAllMapped(s: seq<Extent>, p: nat)
    ensures p in PhysAll(s) <==> exists b: nat, m :: Maps(s, b, m) && m.pblk == p
  {
    PhysAllMembers(s, p);
    if p in PhysAll(s) {
      var e :| e in s && p in Phys(e);
      var b: nat :| e.lblk <= b < e.lblk + e.len && At(e, b).pblk == p;
      assert Maps(s, b, At(e, b));
    }
    if b: nat, m :| Maps(s, b, m) && m.pblk == p {
      var e :| e in s && Covers(e, b) && At(e, b) == m;
      assert p in Phys(e);
    }
  }

  lemma {:induction false} UnmarkedMapped(s: seq<Extent>, x: Extent, p: nat)
    requires p in Unmarked(s, x)
    ensures p in PhysAll(s)
  {
    if s != [] && p !in Phys(s[0]) {
      UnmarkedMapped(s[1..], x, p);
    }
  }

  lemma {:induction false} HoleUnmarked(s: seq<Extent>, x: Extent, b: nat, m: Mapped)
    requires Cuttable(s, x) && Maps(s, b, m) && InHole(x, b)
    ensures m.pblk in Unmarked(s, x)
  {
    var e, t := s[0], s[1..];
    TailSorted(s);
    assert s == [e] + t;
    MapsCons(e, t, b, m);
    CuttableTail(s, x);
    if Covers(e, b) && At(e, b) == m {
      assert m.pblk in Phys(e);
    } else {
      HoleUnmarked(t, x, b, m);
    }
  }

  /** A block unmarked by the loop is mapped in the range, or stays mapped. */
  lemma {:induction false} UnmarkedStays(s: seq<Extent>, x: Extent, del: bool, r: seq<Extent>, p: nat)
    requires WellFormed(s) && RangeOk(x, del) && Safe(s, x) && Modify(s, x, del, r)
    requires p in Unmarked(s, x) && p !in HolePhys(s, x)
    ensures p in PhysAll(r)
  {
    hide Modify, Unmarked, PhysAll, WellFormed, RangeOk, Safe, Normal, LoneEmpty;
    UnmarkedMapped(s, x, p);
    PhysAllMapped(s, p);
    var b: nat, m :| Maps(s, b, m) && m.pblk == p;
    if InHole(x, b) { MappedInHole(s, x, b, m); }
    ModifyWellFormed(s, x, del, r);
    assert Maps(r, b, m);
    PhysAllMapped(r, p);
  }

  lemma {:induction false} MappedInHole(s: seq<Extent>, x: Extent, b: nat, m: Mapped)
    requires WellFormed(s) && Maps(s, b, m) && InHole(x, b)
    ensures m.pblk in HolePhys(s, x)
  {
    BlockMapMaps(s, b, m);
  }

  lemma {:induction false} HoleCleared(s: seq<Extent>, x: Extent, p: nat)
    requires Cuttable(s, x) && p in HolePhys(s, x)
    ensures p in Unmarked(s, x)
  {
    var b :| b in BlockMap(s) && InHole(x, b) && BlockMap(s)[b].pblk == p;
    BlockMapMaps(s, b, BlockMap(s)[b]);
    HoleUnmarked(s, x, b, BlockMap(s)[b]);
  }

  /** One update clears the bits of exactly the physical blocks that were mapped in the range
      and no longer are, sets those of what is mapped afterwards, and leaves every other bit alone;
      whatever the bitmap was, and if physical blocks are shared. */
  lemma {:induction false} BitmapAccounting(s: seq<Extent>, x: Extent, del: bool, r: seq<Extent>,
                                            bits: set<nat>, p: nat)
    requires Editable(s) && RangeOk(x, del) && Safe(s, x) && Modify(s, x, del, r)
    ensures p in bits - Unmarked(s, x) + PhysAll(r) <==>
            p in PhysAll(r) || (p in bits && p !in HolePhys(s, x))
  {
    hide Modify, Safe;
    if LoneEmpty(s) {
      EmptiedMap(s);
      assert s[1..] == [];
    } else if x.lblk + x.len == 0 {
      if s != [] { WipedList(s, x); }
    } else {
      if p in HolePhys(s, x) {
        HoleCleared(s, x, p);
      } else if p in Unmarked(s, x) {
        UnmarkedStays(s, x, del, r, p);
      }
    }
  }

  lemma {:induction false} WipedList(s: seq<Extent>, x: Extent)
    requires WellFormed(s) && s != [] && x.lblk == 0 && x.len == 0
    ensures !Safe(s, x)
  {
    assert s[0].len > 0;
  }
}
