/** How pass 1 keeps the reference counts of extended-attribute blocks (e2fsck/pass1.c,
    check_ext_attr and adjust_extattr_refcount). */
module EaReferences {
  import opened EaRefcount

  /** h_refcount is an unsigned 32-bit integer. */
  const REF_LIMIT: nat := 0x1_0000_0000

  function Mod32(x: int): nat {
    x % REF_LIMIT
  }

  /** h_refcount - 1, which wraps around at 0 */
  function LessOne(h: int): nat {
    Mod32(h - 1)
  }

  /** The count after `n` references were added, or for a negative sign taken off. */
  function Shifted(h: nat, sign: int, n: nat): nat {
    Mod32(h + sign * n)
  }

  /** The headers after the counts of one table were added to them or taken off, each if the
      question was answered yes. */
  ghost predicate Adjusted(before: map<nat, nat>, after: map<nat, nat>, counts: seq<Entry>, sign: int,
                           fix: nat -> bool)
  {
    && after.Keys == before.Keys
    && forall b :: b in before ==>
         after[b] == if Count(counts, b) != 0 && fix(b) then Shifted(before[b], sign, Count(counts, b))
                     else before[b]
  }

  class Pass1 {
    const firstData: nat
    const blocksCount: nat
    const refcount: Table    // references stated by the header and not yet met
    const extra: Table       // references beyond those stated
    var header: map<nat, nat>   // h_refcount of every block that holds attributes
    var seen: set<nat>          // block_ea_map
    ghost var refs: multiset<nat>   // the attribute blocks of the inodes seen so far

    ghost predicate Valid()
      reads this, refcount, extra
    {
      && refcount != extra && refcount.Valid() && extra.Valid()
      && 0 !in seen
      && Books(header, seen, refs, refcount.list, extra.list)
    }

    constructor (firstData: nat, blocksCount: nat, header: map<nat, nat>)
      requires forall b :: b in header ==> header[b] < REF_LIMIT
      ensures Valid() && fresh(refcount) && fresh(extra)
      ensures this.firstData == firstData && this.blocksCount == blocksCount
      ensures this.header == header && seen == {} && refs == multiset{}
    {
      this.firstData, this.blocksCount, this.header := firstData, blocksCount, header;
      refcount := new Table(0);
      extra := new Table(0);
      seen, refs := {}, multiset{};
    }

    /** check_ext_attr on an inode whose attribute block is `blk`; `wellFormed` says whether the
        block passes the tests made on the first visit.  The result says whether the inode keeps
        the block, which is then counted as one more reference. */
    method CheckExtAttr(blk: nat, wellFormed: bool) returns (kept: bool)
      requires Valid() && (wellFormed ==> blk in header)
      modifies this`seen, this`refs, refcount, extra
      ensures Valid()
      ensures kept <==> blk != 0 && firstData <= blk < blocksCount && (blk in old(seen) || wellFormed)
      ensures refs == if kept then old(refs) + multiset{blk} else old(refs)
    {
      if blk == 0 || blk < firstData || blk >= blocksCount {
        return false;
      }
      if blk in seen {
        SeenAgain(blk);
        return true;
      }
      if !wellFormed {
        return false;
      }
      ghost var down := refcount.list;
      refcount.Store(blk, LessOne(header[blk]));
      FirstReference(header, seen, refs, down, refcount.list, extra.list, blk);
      seen := seen + {blk};
      refs := refs + multiset{blk};
      return true;
    }

    /** Another reference to a block seen before. */
    method SeenAgain(blk: nat)
      requires Valid() && blk in seen
      modifies this`refs, refcount, extra
      ensures Valid() && refs == old(refs) + multiset{blk}
    {
      ghost var down, up := refcount.list, extra.list;
      var err, v := refcount.Decrement(blk);
      if err == Ok {
        DownReference(header, seen, refs, down, refcount.list, up, blk);
      } else {
        v := extra.Increment(blk);
        UpReference(header, seen, refs, down, refcount.list, up, extra.list, blk);
      }
      refs := refs + multiset{blk};
    }

    /** adjust_extattr_refcount */
    method Adjust(t: Table, sign: int, fix: nat -> bool)
      requires t.Valid() && forall b: nat :: Count(t.list, b) != 0 ==> b in header && b != 0
      modifies this`header, t`cursor
      ensures Adjusted(old(header), header, t.list, sign, fix)
    {
      hide AdjustedTo, Adjusted, Shifted;
      var counts := t.Iterate();
      ghost var before := header;
      AdjustedNone(before, t.list, counts, sign, fix);
      for i := 0 to |counts|
        invariant AdjustedTo(before, header, counts, i, sign, fix)
      {
        var e := counts[i];
        AdjustedMore(before, header, counts, i, sign, fix);
        if fix(e.key) {
          header := header[e.key := Shifted(header[e.key], sign, e.value)];
        }
      }
      AdjustedAll(before, header, t.list, counts, sign, fix);
    }

    /** The end of pass 1: first down, then up.  If every repair is accepted, the count in the
        header of every attribute block seen is the number of inodes that refer to it, whatever
        it was before, and no block is adjusted in both directions. */
    method AdjustBoth(fix: nat -> bool)
      requires Valid()
      modifies this`header, refcount`cursor, extra`cursor
      ensures forall b: nat :: Count(refcount.list, b) == 0 || Count(extra.list, b) == 0
      ensures header.Keys == old(header).Keys
      ensures forall b :: b in header && b !in seen ==> header[b] == old(header)[b]
      ensures forall b :: b in seen && fix(b) ==> header[b] == refs[b] % 0x1_0000_0000
      ensures forall b :: b in seen && !fix(b) ==> header[b] == old(header)[b]
    {
      Adjust(refcount, -1, fix);
      Adjust(extra, 1, fix);
      forall b | b in seen && fix(b) ensures header[b] == Mod32(refs[b]) {
        BothAdjusted(old(header)[b], Count(refcount.list, b), Count(extra.list, b), refs[b]);
      }
    }
  }

  /** What the two tables say of a block with count `h` in its header and `n` references. */
  predicate Agree(h: nat, down: nat, up: nat, n: nat) {
    Mod32(h - down + up - n) == 0
  }

  /** The tables for the references `refs` to the blocks in `seen`. */
  ghost predicate Books(header: map<nat, nat>, seen: set<nat>, refs: multiset<nat>, down: seq<Entry>,
                        up: seq<Entry>)
  {
    && (forall b :: b in header ==> header[b] < REF_LIMIT)
    && seen <= header.Keys
    && (forall b :: b in refs <==> b in seen)
    && (forall b: nat :: b !in seen ==> Count(down, b) == 0 && Count(up, b) == 0)
    && (forall b: nat :: Count(up, b) == 0 || Count(down, b) == 0)
    && (forall b :: b in seen ==> Agree(header[b], Count(down, b), Count(up, b), refs[b]))
  }

  /** A first reference: one of the stated ones is met, and the rest is expected.  A stated count
      of 0 wraps around, and so does the difference when it is taken off again. */
  lemma {:induction false} FirstReference(header: map<nat, nat>, seen: set<nat>, refs: multiset<nat>,
                                          down: seq<Entry>, down': seq<Entry>, up: seq<Entry>, b: nat)
    requires Books(header, seen, refs, down, up) && b in header && b !in seen
    requires Stored(down, down', b, LessOne(header[b]))
    ensures Books(header, seen + {b}, refs + multiset{b}, down', up)
  {
    assert Agree(header[b], LessOne(header[b]), 0, 1);
  }

  lemma {:induction false} DownReference(header: map<nat, nat>, seen: set<nat>, refs: multiset<nat>,
                                         down: seq<Entry>, down': seq<Entry>, up: seq<Entry>, b: nat)
    requires Books(header, seen, refs, down, up) && b in seen && Count(down, b) > 0
    requires Stored(down, down', b, Count(down, b) - 1)
    ensures Books(header, seen, refs + multiset{b}, down', up)
  {
    var d: nat, u: nat, n: nat := Count(down, b), Count(up, b), refs[b];
    assert header[b] - (d - 1) + u - (n + 1) == header[b] - d + u - n;
  }

  lemma {:induction false} UpReference(header: map<nat, nat>, seen: set<nat>, refs: multiset<nat>,
                                       down: seq<Entry>, down': seq<Entry>, up: seq<Entry>,
                                       up': seq<Entry>, b: nat)
    requires Books(header, seen, refs, down, up) && b in seen
    requires SameCounts(down', down) && Count(down, b) == 0
    requires Stored(up, up', b, (Count(up, b) + 1) % VALUE_LIMIT)
    ensures Books(header, seen, refs + multiset{b}, down', up')
  {
    AgreeUp(header[b], Count(up, b), refs[b]);
  }

  lemma {:induction false} AgreeUp(h: nat, up: nat, n: nat)
    requires Agree(h, 0, up, n) && up < VALUE_LIMIT
    ensures Agree(h, 0, (up + 1) % VALUE_LIMIT, n + 1)
  {
    if up + 1 == VALUE_LIMIT {
      assert VALUE_LIMIT == REF_LIMIT * REF_LIMIT;
    }
  }

  lemma {:induction false} BothAdjusted(h: nat, down: nat, up: nat, n: nat)
    requires h < REF_LIMIT && Agree(h, down, up, n) && (up == 0 || down == 0)
    ensures var mid := if down != 0 then Shifted(h, -1, down) else h;
            (if up != 0 then Shifted(mid, 1, up) else mid) == Mod32(n)
  {
    Congruent(h - down + up, n);
    if up == 0 && down == 0 {
      assert Mod32(h) == h;
    }
  }

  lemma {:induction false} Congruent(a: int, b: int)
    requires Mod32(a - b) == 0
    ensures Mod32(a) == Mod32(b)
  {
  }

  /** The same as Adjusted for the first `i` entries. */
  ghost predicate AdjustedTo(before: map<nat, nat>, after: map<nat, nat>, counts: seq<Entry>, i: nat,
                             sign: int, fix: nat -> bool)
  {
    && i <= |counts| && after.Keys == before.Keys
    && (forall k, j :: 0 <= k < j < |counts| ==> counts[k].key < counts[j].key)
    && (forall k :: 0 <= k < |counts| ==> counts[k].key in before)
    && (forall k :: 0 <= k < i ==> var e := counts[k];
          after[e.key] == if fix(e.key) then Shifted(before[e.key], sign, e.value) else before[e.key])
    && (forall b :: b in before && (forall k :: 0 <= k < i ==> counts[k].key != b) ==> after[b] == before[b])
  }

  lemma {:induction false} AdjustedNone(before: map<nat, nat>, s: seq<Entry>, counts: seq<Entry>,
                                        sign: int, fix: nat -> bool)
    requires Ascending(s) && counts == Collapsed(s)
    requires forall b: nat :: Count(s, b) != 0 ==> b in before
    ensures AdjustedTo(before, before, counts, 0, sign, fix)
  {
    CollapseKeeps(s);
    forall k | 0 <= k < |counts| ensures counts[k].key in before {
      CountAt(counts, k);
    }
  }

  lemma {:induction false} AdjustedMore(before: map<nat, nat>, after: map<nat, nat>, counts: seq<Entry>, i: nat,
                                        sign: int, fix: nat -> bool)
    requires AdjustedTo(before, after, counts, i, sign, fix) && i < |counts|
    ensures var e := counts[i];
            && e.key in after
            && AdjustedTo(before, if fix(e.key) then after[e.key := Shifted(after[e.key], sign, e.value)] else after,
                          counts, i + 1, sign, fix)
  {
    hide Shifted;
  }

  lemma {:induction false} AdjustedAll(before: map<nat, nat>, after: map<nat, nat>, s: seq<Entry>,
                                       counts: seq<Entry>, sign: int, fix: nat -> bool)
    requires Ascending(s) && counts == Collapsed(s)
    requires AdjustedTo(before, after, counts, |counts|, sign, fix)
    ensures Adjusted(before, after, s, sign, fix)
  {
    forall b | b in before
      ensures after[b] == if Count(s, b) != 0 && fix(b) then Shifted(before[b], sign, Count(s, b))
                          else before[b]
    {
      EntryOf(s, counts, b);
    }
  }

  lemma {:induction false} EntryOf(s: seq<Entry>, counts: seq<Entry>, b: nat)
    requires Ascending(s) && counts == Collapsed(s)
    ensures if Count(s, b) != 0 then exists k :: 0 <= k < |counts| && counts[k] == Entry(b, Count(s, b))
            else forall k :: 0 <= k < |counts| ==> counts[k].key != b
  {
    CollapsedExact(s, b);
    CollapseKeeps(s);
    if Count(s, b) == 0 {
      forall k | 0 <= k < |counts| ensures counts[k].key != b {
        CountAt(counts, k);
      }
    }
  }
}
