/** One directory block in pass 2 (e2fsck/pass2.c) as the sequence of the valid entries that the
    scan meets, what it makes of each, and how they are found again in the block at the end. */
module DirTrace {
  import opened Basics
  import opened DirBlock

  const EXT2_ROOT_INO: nat := 2

  /** What the scan learns from other passes about the entry at an offset: whether a check on
      its inode number clears it, whether it is a second link to a directory, which is found out
      only after its name was checked, and the file type it should show. */
  datatype Oracle = Oracle(rejects: nat -> bool, relinks: nat -> bool, fileType: nat -> byte)

  predicate IsDot(b: seq<byte>, off: nat)
    requires off + 12 <= |b|
  {
    NameLen(b, off) == 1 && b[off + 8] == DOT && b[off + 9] == 0
  }

  predicate IsDotDot(b: seq<byte>, off: nat)
    requires off + 12 <= |b|
  {
    NameLen(b, off) == 2 && b[off + 8] == DOT && b[off + 9] == DOT && b[off + 10] == 0
  }

  /** strncmp(name, "..", 3) == 0 */
  predicate LooksDotDot(b: seq<byte>, off: nat)
    requires off + 12 <= |b|
  {
    b[off + 8] == DOT && b[off + 9] == DOT && b[off + 10] == 0
  }

  /** Checks that only look at the entry: a link to the directory itself, to the root, a second
      '.' or '..', an empty name.  Each clears the inode. */
  predicate ClearedByLooks(b: seq<byte>, off: nat, dotState: nat)
    requires Entry(b, off)
  {
    && dotState > 1
    && (|| (NameLen(b, off) == 1 && b[off + 8] == DOT)
        || (NameLen(b, off) == 2 && b[off + 8] == DOT && b[off + 9] == DOT)
        || InodeAt(b, off) == EXT2_ROOT_INO
        || NameLen(b, off) == 0)
  }

  /** The entry is '.' of inode `ino`. */
  predicate DotOf(b: seq<byte>, off: nat, ino: nat)
    requires Entry(b, off)
  {
    InodeAt(b, off) == ino && NameLen(b, off) == 1 && b[off + 8] == DOT
  }

  /** The checks find nothing to change in the entry. */
  predicate EntryHealthy(b: seq<byte>, off: nat, ino: nat, dotState: nat, o: Oracle)
    requires Entry(b, off)
  {
    if dotState > 1 && InodeAt(b, off) == 0 then true
    else
      && !o.rejects(off) && b[off + 7] == o.fileType(off) && CleanName(b, off)
      && (dotState > 1 ==> !o.relinks(off))
      && (dotState == 0 ==> IsDot(b, off) && InodeAt(b, off) == ino && RecLen(b, off) <= 24)
      && (dotState == 1 ==> IsDotDot(b, off) && InodeAt(b, off) != 0)
      && (dotState > 1 ==> InodeAt(b, off) != ino && !ClearedByLooks(b, off, dotState))
  }

  /** From `off` on the block is a chain of entries in which the checks find nothing to change. */
  predicate Healthy(b: seq<byte>, off: nat, ino: nat, dotState: nat, o: Oracle)
    decreases |b| - off
  {
    off == |b| || (Entry(b, off) && EntryHealthy(b, off, ino, dotState, o)
                   && Healthy(b, off + RecLen(b, off), ino, dotState + 1, o))
  }

  /** What becomes of an entry that is neither the first nor the second of a directory: its inode
      is cleared, or it keeps everything but the file type and the illegal characters, or, if it
      is a second link to a directory, both. */
  predicate Checked(b: seq<byte>, b': seq<byte>, off: nat, ino: nat, rejects: bool, relinks: bool)
    requires Entry(b, off) && Entry(b', off)
  {
    if InodeAt(b, off) == 0 then b' == b
    else if InodeAt(b, off) == ino || rejects || ClearedByLooks(b, off, 2) then
      InodeAt(b', off) == 0 && OnlyWithin(b, b', off, off + 4)
    else
      && InodeAt(b', off) == (if relinks then 0 else InodeAt(b, off))
      && NameLen(b', off) == NameLen(b, off) && RecLen(b', off) == RecLen(b, off)
      && OnlyWithin(b, b', off, off + 8 + NameLen(b, off))
      && forall i :: off + 8 <= i < off + 8 + NameLen(b, off) ==>
           b'[i] == if b[i] == SLASH || b[i] == 0 then DOT else b[i]
  }

  /** What the checks make of a valid entry. */
  ghost predicate LeftBy(b: seq<byte>, b': seq<byte>, off: nat, ino: nat, dotState: nat, o: Oracle) {
    && BlockOk(b') && |b'| == |b| && Entry(b, off) && Entry(b', off)
    && CleanIfUsed(b', off) && OnlyWithin(b, b', off, off + RecLen(b, off))
    && RecLen(b', off) == (if dotState == 0 && RecLen(b, off) > 24 then 12 else RecLen(b, off))
    && (InodeAt(b', off) != 0 ==> b'[off + 7] == o.fileType(off))
    && (dotState == 0 && !o.rejects(off) ==> DotOf(b', off, ino))
    && (dotState == 1 ==>
          && NameLen(b', off) == 2 && b'[off + 8] == DOT && b'[off + 9] == DOT
          && (InodeAt(b', off) == 0 <==> o.rejects(off)))
    && (dotState > 1 ==> Checked(b, b', off, ino, o.rejects(off), o.relinks(off)))
  }

  // ---- The run ----

  /** Salvage until there is a valid entry at the offset, or the block is at its end. */
  function Salvaged(b: seq<byte>, off: nat, prev: Option<nat>, maxInode: nat): (r: (seq<byte>, nat))
    requires BlockOk(b) && Scanned(b, off, prev)
    ensures |r.0| == |b| && (r.1 == |b| || Entry(r.0, r.1))
    decreases |b| - off, Rank(b, off), Span(b, off)
  {
    if off == |b| || Entry(b, off) then (b, off)
    else
      SalvageProgress(b, off, prev, maxInode);
      SalvageScanned(b, off, prev, maxInode);
      var act := Choose(b, off, prev, maxInode);
      Salvaged(Apply(b, off, prev, act), Moved(off, act), prev, maxInode)
  }

  /** An entry met by the scan: the block in which it was valid, and the block after its checks. */
  datatype Met = Met(off: nat, block: seq<byte>, after: seq<byte>)

  /** The scan behind the last entry met, or at the start. */
  function Behind(b0: seq<byte>, met: seq<Met>): (seq<byte>, nat, Option<nat>)
    requires met == [] || Entry(met[|met| - 1].after, met[|met| - 1].off)
  {
    if met == [] then (b0, 0, None)
    else
      var m := met[|met| - 1];
      (m.after, m.off + RecLen(m.after, m.off), Some(m.off))
  }

  /** After `s` the scan salvages up to the entry `m` and makes of it what it became. */
  ghost predicate Leads(s: (seq<byte>, nat, Option<nat>), m: Met, ino: nat, dotState: nat, o: Oracle, maxInode: nat) {
    && BlockOk(s.0) && Scanned(s.0, s.1, s.2)
    && Salvaged(s.0, s.1, s.2, maxInode) == (m.block, m.off) && m.off < |m.block|
    && LeftBy(m.block, m.after, m.off, ino, dotState, o)
  }

  /** From there the scan comes to no further entry, and the block is then `b`. */
  ghost predicate EndsIn(s: (seq<byte>, nat, Option<nat>), b: seq<byte>, maxInode: nat) {
    BlockOk(s.0) && Scanned(s.0, s.1, s.2) && Salvaged(s.0, s.1, s.2, maxInode) == (b, |b|)
  }

  /** `met` is what a scan of `b0` meets, one entry after the other. */
  ghost predicate Trace(b0: seq<byte>, met: seq<Met>, ino: nat, dotState: nat, o: Oracle, maxInode: nat)
    ensures Trace(b0, met, ino, dotState, o, maxInode) && met != [] ==>
              Entry(met[|met| - 1].after, met[|met| - 1].off)
  {
    met == [] ||
    (var n := |met| - 1;
     && Trace(b0, met[..n], ino, dotState, o, maxInode)
     && Leads(Behind(b0, met[..n]), met[n], ino, dotState + n, o, maxInode))
  }

  /** Each entry met is the one to which the scan came from the entry before it. */
  lemma {:induction false} TraceLeads(b0: seq<byte>, met: seq<Met>, ino: nat, dotState: nat, o: Oracle,
                                      maxInode: nat, i: nat)
    requires Trace(b0, met, ino, dotState, o, maxInode) && i < |met|
    ensures Trace(b0, met[..i], ino, dotState, o, maxInode)
    ensures Leads(Behind(b0, met[..i]), met[i], ino, dotState + i, o, maxInode)
  {
    hide Leads;
    if i < |met| - 1 {
      TraceLeads(b0, met[..|met| - 1], ino, dotState, o, maxInode, i);
      assert met[..|met| - 1][..i] == met[..i];
    }
  }

  /** Each entry met was valid, and the checks made of it what is said. */
  lemma {:induction false} TraceAt(b0: seq<byte>, met: seq<Met>, ino: nat, dotState: nat, o: Oracle,
                                   maxInode: nat, i: nat)
    requires Trace(b0, met, ino, dotState, o, maxInode) && i < |met|
    ensures LeftBy(met[i].block, met[i].after, met[i].off, ino, dotState + i, o)
  {
    hide LeftBy, Salvaged, Behind, Trace;
    TraceLeads(b0, met, ino, dotState, o, maxInode, i);
  }

  /** Where the scan of `b0` goes after `met` it also goes from here. */
  ghost predicate Reached(s: (seq<byte>, nat, Option<nat>), b: seq<byte>, off: nat, prev: Option<nat>, maxInode: nat) {
    && BlockOk(s.0) && Scanned(s.0, s.1, s.2) && BlockOk(b) && Scanned(b, off, prev) && s.2 == prev
    && Salvaged(s.0, s.1, s.2, maxInode) == Salvaged(b, off, prev, maxInode)
  }

  // ---- The entries of a chain ----

  /** Where the entries of the chain from `lo` up to `hi` begin. */
  function Entries(b: seq<byte>, lo: nat, hi: nat): seq<nat>
    requires Chain(b, lo, hi)
    decreases hi - lo
  {
    if lo == hi then [] else [lo] + Entries(b, lo + RecLen(b, lo), hi)
  }

  lemma {:induction false} EntriesAppend(b: seq<byte>, lo: nat, p: nat)
    requires Chain(b, lo, p) && Entry(b, p)
    ensures Chain(b, lo, p + RecLen(b, p))
    ensures Entries(b, lo, p + RecLen(b, p)) == Entries(b, lo, p) + [p]
    decreases p - lo
  {
    ChainAppend(b, lo, p);
    if lo < p {
      EntriesAppend(b, lo + RecLen(b, lo), p);
    } else {
      assert Entries(b, p + RecLen(b, p), p + RecLen(b, p)) == [];
    }
  }

  lemma {:induction false} EntriesFirst(b: seq<byte>, lo: nat, hi: nat)
    requires Chain(b, lo, hi) && lo < hi
    ensures lo + 8 <= |b| && lo < lo + RecLen(b, lo) <= hi && Chain(b, lo + RecLen(b, lo), hi)
    ensures Entries(b, lo, hi) == [lo] + Entries(b, lo + RecLen(b, lo), hi)
  {
  }

  lemma {:induction false} FirstRecLen(a: seq<byte>, b: seq<byte>, lo: nat, hi: nat)
    requires Chain(a, lo, hi) && lo < hi && SameBytes(a, b, lo, hi)
    ensures lo + 8 <= |a| && RecLen(b, lo) == RecLen(a, lo)
  {
  }

  lemma {:induction false} EntriesFrame(a: seq<byte>, b: seq<byte>, lo: nat, hi: nat)
    requires Chain(a, lo, hi) && SameBytes(a, b, lo, hi)
    ensures Chain(b, lo, hi) && Entries(b, lo, hi) == Entries(a, lo, hi)
    decreases hi - lo, 1
  {
    ChainFrame(a, b, lo, hi);
    if lo == hi {
    } else {
      EntriesFrameMore(a, b, lo, hi);
    }
  }

  lemma {:induction false} EntriesFrameMore(a: seq<byte>, b: seq<byte>, lo: nat, hi: nat)
    requires Chain(a, lo, hi) && SameBytes(a, b, lo, hi) && Chain(b, lo, hi) && lo < hi
    ensures Entries(b, lo, hi) == Entries(a, lo, hi)
    decreases hi - lo, 0
  {
    hide Chain, Entries, RecLen;
    FirstRecLen(a, b, lo, hi);
    EntriesFirst(a, lo, hi);
    EntriesFirst(b, lo, hi);
    EntriesFrame(a, b, lo + RecLen(a, lo), hi);
  }

  lemma {:induction false} EntriesFrom(b: seq<byte>, lo: nat, hi: nat, q: nat)
    requires Chain(b, lo, hi) && q in Entries(b, lo, hi)
    ensures Chain(b, lo, q) && Entry(b, q) && q + RecLen(b, q) <= hi && Chain(b, q + RecLen(b, q), hi)
    decreases hi - lo
  {
    if q != lo {
      EntriesFrom(b, lo + RecLen(b, lo), hi, q);
      ChainPrepend(b, lo, q);
    }
  }

  lemma {:induction false} ChainPrepend(b: seq<byte>, lo: nat, q: nat)
    requires Entry(b, lo) && Chain(b, lo + RecLen(b, lo), q)
    ensures Chain(b, lo, q)
  {
    ChainBounds(b, lo + RecLen(b, lo), q);
  }

  lemma {:induction false} ChainBounds(b: seq<byte>, lo: nat, hi: nat)
    requires Chain(b, lo, hi)
    ensures lo <= hi
  {
  }

  // ---- The entries met are the entries of the block ----

  lemma {:induction false} SameEntryTrans(a: seq<byte>, b: seq<byte>, c: seq<byte>, q: nat)
    requires Entry(a, q) && Entry(b, q) && |a| == |b| == |c| && SameEntry(a, b, q) && SameEntry(b, c, q)
    ensures SameEntry(a, c, q)
  {
  }

  function Offsets(met: seq<Met>): seq<nat> {
    seq(|met|, i requires 0 <= i < |met| => met[i].off)
  }

  /** The chain before `off` consists of the entries met, each with the inode, the type and the
      name that the checks left it. */
  ghost predicate Kept(met: seq<Met>, b: seq<byte>, off: nat) {
    && Chain(b, 0, off) && Entries(b, 0, off) == Offsets(met)
    && forall i :: 0 <= i < |met| ==> KeptOne(met[i], b)
  }

  predicate KeptOne(m: Met, b: seq<byte>) {
    |m.after| == |b| && Entry(m.after, m.off) && Entry(b, m.off) && SameEntry(m.after, b, m.off)
  }

  /** A block that differs below the offset in the length of its last entry has the same entries. */
  lemma {:induction false} EntriesKept(b: seq<byte>, b': seq<byte>, off: nat, off': nat, p: nat)
    requires Scanned(b, off, Some(p)) && Scanned(b', off', Some(p)) && SameBytes(b, b', 0, p)
    ensures Chain(b, 0, off) && Chain(b', 0, off') && Entries(b', 0, off') == Entries(b, 0, off)
  {
    hide Entries, RecLen;
    EntriesAppend(b, 0, p);
    EntriesAppend(b', 0, p);
    EntriesFrame(b, b', 0, p);
  }

  lemma {:induction false} EntriesSalvaged(b: seq<byte>, off: nat, prev: Option<nat>, maxInode: nat)
    requires AtBadEntry(b, off, prev)
    ensures var act := Choose(b, off, prev, maxInode);
            && Applicable(b, off, prev, act)
            && var b', off' := Apply(b, off, prev, act), Moved(off, act);
               && Chain(b, 0, off) && Chain(b', 0, off')
               && Entries(b', 0, off') == Entries(b, 0, off)
  {
    hide Apply, Choose, Entries, Entry, RecLen;
    SalvageScanned(b, off, prev, maxInode);
    ChooseFacts(b, off, prev, maxInode);
    var act := Choose(b, off, prev, maxInode);
    if prev.Some? {
      EntriesKept(b, Apply(b, off, prev, act), off, Moved(off, act), prev.value);
    } else {
      NoEntries(b);
      NoEntries(Apply(b, off, prev, act));
    }
  }

  lemma {:induction false} NoEntries(b: seq<byte>)
    ensures Chain(b, 0, 0) && Entries(b, 0, 0) == []
  {
  }

  lemma {:induction false} KeptOneSalvaged(m: Met, b: seq<byte>, off: nat, prev: Option<nat>, maxInode: nat)
    requires AtBadEntry(b, off, prev) && KeptOne(m, b) && Accepted(b, m.off, off)
    ensures var act := Choose(b, off, prev, maxInode);
            Applicable(b, off, prev, act) && KeptOne(m, Apply(b, off, prev, act))
  {
    hide Choose, Apply, Entry, SameEntry, Scanned;
    SalvageKeepsEntry(b, off, prev, maxInode, m.off);
    SameEntryTrans(m.after, b, Apply(b, off, prev, Choose(b, off, prev, maxInode)), m.off);
  }

  lemma {:induction false} MetAccepted(met: seq<Met>, b: seq<byte>, off: nat, i: nat)
    requires Kept(met, b, off) && i < |met|
    ensures Accepted(b, met[i].off, off) && KeptOne(met[i], b)
  {
    hide Entry, SameEntry, Chain, Entries;
    assert Offsets(met)[i] == met[i].off;
    EntriesFrom(b, 0, off, met[i].off);
  }

  /** A salvage keeps what was met. */
  lemma {:induction false} KeptSalvaged(met: seq<Met>, b: seq<byte>, off: nat, prev: Option<nat>, maxInode: nat)
    requires AtBadEntry(b, off, prev) && Kept(met, b, off)
    ensures var act := Choose(b, off, prev, maxInode);
            && Applicable(b, off, prev, act)
            && Kept(met, Apply(b, off, prev, act), Moved(off, act))
  {
    hide Choose, Apply, KeptOne, Accepted, Entries, Scanned, Entry;
    EntriesSalvaged(b, off, prev, maxInode);
    var b' := Apply(b, off, prev, Choose(b, off, prev, maxInode));
    forall i | 0 <= i < |met| ensures KeptOne(met[i], b') {
      MetAccepted(met, b, off, i);
      KeptOneSalvaged(met[i], b, off, prev, maxInode);
    }
  }

  /** The checks on the next entry keep what was met, and add it. */
  lemma {:induction false} KeptChecked(met: seq<Met>, b: seq<byte>, b': seq<byte>, off: nat)
    requires Kept(met, b, off) && SameBytes(b, b', 0, off) && Entry(b', off)
    ensures Kept(met + [Met(off, b, b')], b', off + RecLen(b', off))
  {
    EntriesFrame(b, b', 0, off);
    EntriesAppend(b', 0, off);
    var more := met + [Met(off, b, b')];
    assert Offsets(more) == Offsets(met) + [off];
    forall i | 0 <= i < |more| ensures KeptOne(more[i], b') {
      if i < |met| {
        assert Offsets(met)[i] == met[i].off && KeptOne(met[i], b);
        EntriesFrom(b, 0, off, met[i].off);
        KeptFields(b, b', met[i].off);
        SameEntryTrans(met[i].after, b, b', met[i].off);
      }
    }
  }

  // ---- The run, step by step ----

  lemma {:induction false} ReachedSalvaged(s: (seq<byte>, nat, Option<nat>), b: seq<byte>, off: nat,
                                           prev: Option<nat>, maxInode: nat)
    requires Reached(s, b, off, prev, maxInode) && AtBadEntry(b, off, prev)
    ensures var act := Choose(b, off, prev, maxInode);
            && Applicable(b, off, prev, act)
            && Reached(s, Apply(b, off, prev, act), Moved(off, act), prev, maxInode)
  {
    SalvageProgress(b, off, prev, maxInode);
    SalvageScanned(b, off, prev, maxInode);
  }

  lemma {:induction false} LeftByEntry(b: seq<byte>, b': seq<byte>, off: nat, ino: nat, dotState: nat, o: Oracle)
    requires LeftBy(b, b', off, ino, dotState, o)
    ensures BlockOk(b') && |b'| == |b| && Entry(b', off)
  {
  }

  lemma {:induction false} LeftByBelow(b: seq<byte>, b': seq<byte>, off: nat, ino: nat, dotState: nat, o: Oracle)
    requires LeftBy(b, b', off, ino, dotState, o)
    ensures SameBytes(b, b', 0, off)
  {
  }

  lemma {:induction false} LeadsHere(s: (seq<byte>, nat, Option<nat>), b: seq<byte>, b': seq<byte>, off: nat,
                                     prev: Option<nat>, ino: nat, dotState: nat, o: Oracle, maxInode: nat)
    requires Reached(s, b, off, prev, maxInode) && Entry(b, off) && LeftBy(b, b', off, ino, dotState, o)
    ensures Leads(s, Met(off, b, b'), ino, dotState, o, maxInode)
  {
  }

  lemma {:induction false} TraceMore(b0: seq<byte>, met: seq<Met>, m: Met, ino: nat, dotState: nat, o: Oracle,
                                     maxInode: nat)
    requires Trace(b0, met, ino, dotState, o, maxInode)
    requires Leads(Behind(b0, met), m, ino, dotState + |met|, o, maxInode)
    ensures Trace(b0, met + [m], ino, dotState, o, maxInode)
    ensures Behind(b0, met + [m]) == (m.after, m.off + RecLen(m.after, m.off), Some(m.off))
  {
    hide Leads, Salvaged;
    assert (met + [m])[..|met|] == met;
  }

  /** The next entry is met. */
  lemma {:induction false} ReachedChecked(b0: seq<byte>, met: seq<Met>, b: seq<byte>, b': seq<byte>, off: nat,
                                          prev: Option<nat>, ino: nat, dotState: nat, o: Oracle, maxInode: nat)
    requires Trace(b0, met, ino, dotState, o, maxInode) && Reached(Behind(b0, met), b, off, prev, maxInode)
    requires Entry(b, off) && LeftBy(b, b', off, ino, dotState + |met|, o)
    requires Scanned(b', off + RecLen(b', off), Some(off))
    ensures var more := met + [Met(off, b, b')];
            && Trace(b0, more, ino, dotState, o, maxInode)
            && Reached(Behind(b0, more), b', off + RecLen(b', off), Some(off), maxInode)
  {
    hide Leads, Trace, Salvaged, LeftBy;
    LeftByEntry(b, b', off, ino, dotState + |met|, o);
    LeadsHere(Behind(b0, met), b, b', off, prev, ino, dotState + |met|, o, maxInode);
    TraceMore(b0, met, Met(off, b, b'), ino, dotState, o, maxInode);
  }

  // ---- Names that the check of names turns into '.' and '..' ----

  /** The name is '.' or '..'. */
  predicate Dots(b: seq<byte>, q: nat)
    requires Entry(b, q)
  {
    1 <= NameLen(b, q) <= 2 && forall i :: q + 8 <= i < q + 8 + NameLen(b, q) ==> b[i] == DOT
  }

  /** The name is neither, but nothing in it is left of other characters than dots. */
  predicate BecomesDots(b: seq<byte>, q: nat)
    requires Entry(b, q)
  {
    && 1 <= NameLen(b, q) <= 2 && !Dots(b, q)
    && forall i :: q + 8 <= i < q + 8 + NameLen(b, q) ==> b[i] == DOT || b[i] == SLASH || b[i] == 0
  }

  /** None of the checks clears the entry. */
  predicate Stays(b: seq<byte>, q: nat, ino: nat, o: Oracle)
    requires Entry(b, q)
  {
    && InodeAt(b, q) != 0 && InodeAt(b, q) != ino && !o.rejects(q) && !o.relinks(q)
    && !ClearedByLooks(b, q, 2)
  }

  /** On the bytes: the entry is in use, is no link to the directory itself or to the root, has a name
      that is neither empty nor '.' nor '..', and is not rejected. */
  lemma {:induction false} StaysExact(b: seq<byte>, q: nat, ino: nat, o: Oracle)
    requires Entry(b, q)
    ensures Stays(b, q, ino, o) <==>
            && InodeAt(b, q) != 0 && InodeAt(b, q) != ino && InodeAt(b, q) != 2
            && NameLen(b, q) > 0 && !Dots(b, q) && !o.rejects(q) && !o.relinks(q)
  {
    if NameLen(b, q) == 1 {
      assert Dots(b, q) <==> b[q + 8] == DOT;
    } else if NameLen(b, q) == 2 {
      assert Dots(b, q) <==> b[q + 8] == DOT && b[q + 9] == DOT;
    }
  }

  /** An entry behind the first two has nothing to repair if and only if it is not in use, or stays
      and shows the right type and a clean name. */
  lemma {:induction false} HealthyExact(b: seq<byte>, q: nat, ino: nat, dotState: nat, o: Oracle)
    requires Entry(b, q) && dotState > 1
    ensures EntryHealthy(b, q, ino, dotState, o) <==>
            InodeAt(b, q) == 0 || (Stays(b, q, ino, o) && b[q + 7] == o.fileType(q) && CleanName(b, q))
  {
  }

  /** After the checks an entry that is neither the first nor the second is in use and named '.' or
      '..' if and only if it stays and its name becomes that: the test for such names comes
      before the characters are replaced. */
  lemma {:induction false} DotsLeft(b: seq<byte>, b': seq<byte>, q: nat, ino: nat, o: Oracle)
    requires Entry(b, q) && Entry(b', q) && Checked(b, b', q, ino, o.rejects(q), o.relinks(q))
    ensures InodeAt(b', q) != 0 && Dots(b', q) <==> Stays(b, q, ino, o) && BecomesDots(b, q)
  {
    if Stays(b, q, ino, o) {
      if Dots(b', q) {
        forall i | q + 8 <= i < q + 8 + NameLen(b, q)
          ensures b[i] == DOT || b[i] == SLASH || b[i] == 0
        {
          assert b'[i] == DOT;
        }
      }
    }
  }

  /** An entry in use that has the name '.' or '..'. */
  predicate UsedDots(b: seq<byte>, q: nat) {
    Entry(b, q) && InodeAt(b, q) != 0 && Dots(b, q)
  }

  lemma {:induction false} SameEntryDots(b: seq<byte>, b': seq<byte>, q: nat)
    requires Entry(b, q) && Entry(b', q) && |b'| == |b| && SameEntry(b, b', q)
    ensures UsedDots(b', q) <==> UsedDots(b, q)
    ensures Dots(b', q) <==> Dots(b, q)
  {
    var n := NameLen(b, q);
    forall i | q + 8 <= i < q + 8 + n ensures b'[i] == b[i] {
      assert b'[i] == b'[q + 8..q + 8 + n][i - q - 8];
      assert b[i] == b[q + 8..q + 8 + n][i - q - 8];
    }
  }

  /** An entry met that stays, and whose name becomes '.' or '..'. */
  predicate TurnsToDots(m: Met, ino: nat, o: Oracle) {
    Entry(m.block, m.off) && Stays(m.block, m.off, ino, o) && BecomesDots(m.block, m.off)
  }

  /** A block with one entry, of inode 12 and with the name '/'. */
  function SlashBlock(): (b: seq<byte>)
    ensures |b| == 1024
  {
    [12, 0, 0, 0, 0, 4, 1, 2, SLASH] + seq(1015, _ => 0)
  }

  /** The scan leaves it with the name '.'. */
  lemma {:induction false} SlashBecomesDot(b': seq<byte>, o: Oracle)
    requires LeftBy(SlashBlock(), b', 0, 11, 2, o) && !o.rejects(0) && !o.relinks(0)
    ensures UsedDots(b', 0)
  {
    var b := SlashBlock();
    assert b[0] == 12 && b[8] == SLASH && InodeAt(b, 0) == 12 && NameLen(b, 0) == 1;
    DotsLeft(b, b', 0, 11, o);
  }

  /** Which entries of the block are named '.' or '..' in the end, besides the first two of a
      first block: those met that stayed and had a name that becomes one. */
  lemma {:induction false} DotsAtEnd(b0: seq<byte>, met: seq<Met>, b: seq<byte>, ino: nat, dotState: nat,
                                     o: Oracle, maxInode: nat)
    requires Trace(b0, met, ino, dotState, o, maxInode) && Kept(met, b, |b|)
    ensures forall i :: 0 <= i < |met| && dotState + i > 1 ==>
              (UsedDots(b, met[i].off) <==> TurnsToDots(met[i], ino, o))
  {
    forall i | 0 <= i < |met| && dotState + i > 1
      ensures UsedDots(b, met[i].off) <==> TurnsToDots(met[i], ino, o)
    {
      var m := met[i];
      TraceAt(b0, met, ino, dotState, o, maxInode, i);
      assert KeptOne(m, b);
      DotsLeft(m.block, m.after, m.off, ino, o);
      SameEntryDots(m.after, b, m.off);
    }
  }

  /** In the end those have their inode if they stay, and else none. */
  lemma {:induction false} InodesAtEnd(b0: seq<byte>, met: seq<Met>, b: seq<byte>, ino: nat, dotState: nat,
                                       o: Oracle, maxInode: nat)
    requires Trace(b0, met, ino, dotState, o, maxInode) && Kept(met, b, |b|)
    ensures forall i :: 0 <= i < |met| && dotState + i > 1 ==> InodeKept(met[i], b, ino, o)
  {
    hide Trace, LeftBy, InodeKept;
    forall i | 0 <= i < |met| && dotState + i > 1 ensures InodeKept(met[i], b, ino, o) {
      TraceAt(b0, met, ino, dotState, o, maxInode, i);
      assert KeptOne(met[i], b);
      InodeLeft(met[i], b, ino, dotState + i, o);
    }
  }

  predicate InodeKept(m: Met, b: seq<byte>, ino: nat, o: Oracle) {
    && Entry(m.block, m.off) && Entry(b, m.off)
    && InodeAt(b, m.off) == if Stays(m.block, m.off, ino, o) then InodeAt(m.block, m.off) else 0
  }

  lemma {:induction false} InodeLeft(m: Met, b: seq<byte>, ino: nat, dotState: nat, o: Oracle)
    requires KeptOne(m, b) && LeftBy(m.block, m.after, m.off, ino, dotState, o) && dotState > 1
    ensures InodeKept(m, b, ino, o)
  {
  }

  /** None of those is in use as a link to the directory itself or to the root. */
  lemma {:induction false} LinksAtEnd(b0: seq<byte>, met: seq<Met>, b: seq<byte>, ino: nat, dotState: nat,
                                      o: Oracle, maxInode: nat)
    requires Trace(b0, met, ino, dotState, o, maxInode) && Kept(met, b, |b|)
    ensures forall i :: 0 <= i < |met| && dotState + i > 1 ==> LinkOk(b, met[i].off, ino)
  {
    forall i | 0 <= i < |met| && dotState + i > 1 ensures LinkOk(b, met[i].off, ino) {
      TraceAt(b0, met, ino, dotState, o, maxInode, i);
      assert KeptOne(met[i], b);
      LinkLeft(met[i], b, ino, dotState + i, o);
    }
  }

  predicate LinkOk(b: seq<byte>, q: nat, ino: nat) {
    Entry(b, q) && (InodeAt(b, q) == 0 || (InodeAt(b, q) != ino && InodeAt(b, q) != 2))
  }

  lemma {:induction false} LinkLeft(m: Met, b: seq<byte>, ino: nat, dotState: nat, o: Oracle)
    requires KeptOne(m, b) && LeftBy(m.block, m.after, m.off, ino, dotState, o) && dotState > 1
    ensures LinkOk(b, m.off, ino)
  {
  }

  /** The type of every entry in use is the one it should show. */
  lemma {:induction false} TypesAtEnd(b0: seq<byte>, met: seq<Met>, b: seq<byte>, ino: nat, dotState: nat,
                                      o: Oracle, maxInode: nat)
    requires Trace(b0, met, ino, dotState, o, maxInode) && Kept(met, b, |b|)
    ensures forall i :: 0 <= i < |met| ==> TypeOk(b, met[i].off, o)
  {
    hide Trace, LeftBy;
    forall i | 0 <= i < |met| ensures TypeOk(b, met[i].off, o) {
      TraceAt(b0, met, ino, dotState, o, maxInode, i);
      assert KeptOne(met[i], b);
      TypeLeft(met[i], b, ino, dotState + i, o);
    }
  }

  predicate TypeOk(b: seq<byte>, q: nat, o: Oracle) {
    Entry(b, q) && (InodeAt(b, q) == 0 || b[q + 7] == o.fileType(q))
  }

  lemma {:induction false} TypeLeft(m: Met, b: seq<byte>, ino: nat, dotState: nat, o: Oracle)
    requires KeptOne(m, b) && LeftBy(m.block, m.after, m.off, ino, dotState, o)
    ensures TypeOk(b, m.off, o)
  {
  }

  /** The second entry met in the first block of a directory is '..' in the end, and in use unless
      its inode number is rejected. */
  lemma {:induction false} DotDotAtEnd(b0: seq<byte>, met: seq<Met>, b: seq<byte>, ino: nat, o: Oracle, maxInode: nat)
    requires Trace(b0, met, ino, 0, o, maxInode) && Kept(met, b, |b|) && |met| >= 2
    ensures var q := met[1].off;
            && Entry(b, q) && NameLen(b, q) == 2 && Dots(b, q) && (InodeAt(b, q) == 0 <==> o.rejects(q))
  {
    TraceAt(b0, met, ino, 0, o, maxInode, 1);
    assert KeptOne(met[1], b);
    SecondDots(met[1], b, ino, o);
  }

  /** There is a second entry if and only if the scan, behind the first one, comes to a valid entry
      before the end of the block; else what was there is absorbed into the first. */
  lemma {:induction false} SecondEntry(b0: seq<byte>, met: seq<Met>, b: seq<byte>, ino: nat, dotState: nat,
                                       o: Oracle, maxInode: nat)
    requires Trace(b0, met, ino, dotState, o, maxInode) && Kept(met, b, |b|) && |met| >= 1
    requires EndsIn(Behind(b0, met), b, maxInode)
    ensures met[0].off == 0 && Entry(b, 0) && (|met| >= 2 <==> RecLen(b, 0) < |b|)
    ensures |met| >= 2 ==> met[1].off == RecLen(b, 0)
    ensures var (a, next) := (met[0].after, met[0].off + RecLen(met[0].after, met[0].off));
            && BlockOk(a) && Scanned(a, next, Some(0))
            && (|met| >= 2 <==> Salvaged(a, next, Some(0), maxInode).1 < |b|)
  {
    hide LeftBy, Salvaged, Trace, Kept, Scanned, RecLen;
    FirstOffsets(met, b);
    if |met| >= 2 {
      TraceLeads(b0, met, ino, dotState, o, maxInode, 1);
      assert met[..1][0] == met[0];
    }
  }

  lemma {:induction false} FirstOffsets(met: seq<Met>, b: seq<byte>)
    requires Kept(met, b, |b|) && |met| >= 1
    ensures met[0].off == 0 && Entry(b, 0) && (|met| >= 2 <==> RecLen(b, 0) < |b|)
    ensures |met| >= 2 ==> met[1].off == RecLen(b, 0)
  {
    hide Entries, RecLen, SameEntry;
    var n := |b|;
    if n > 0 {
      EntriesFirst(b, 0, n);
      if RecLen(b, 0) < n { EntriesFirst(b, RecLen(b, 0), n); }
    }
    EntriesEnd(b, n);
    assert Offsets(met)[0] == met[0].off;
    assert |met| >= 2 ==> Offsets(met)[1] == met[1].off;
  }

  lemma {:induction false} EntriesEnd(b: seq<byte>, n: nat)
    ensures Chain(b, n, n) && Entries(b, n, n) == []
  {
  }

  lemma {:induction false} SecondDots(m: Met, b: seq<byte>, ino: nat, o: Oracle)
    requires KeptOne(m, b) && LeftBy(m.block, m.after, m.off, ino, 1, o)
    ensures NameLen(b, m.off) == 2 && Dots(b, m.off) && (InodeAt(b, m.off) == 0 <==> o.rejects(m.off))
  {
    SameEntryDots(m.after, b, m.off);
  }

  // ---- Which entries of the block are met ----

  /** The entry at `q` of `b` stands at `at` in the other block: inode, type and name. */
  predicate Same(b: seq<byte>, q: nat, b': seq<byte>, at: nat) {
    && q + 8 <= |b| && at + 8 <= |b'| && q + 8 + NameLen(b, q) <= |b| && at + 8 + NameLen(b, q) <= |b'|
    && InodeAt(b', at) == InodeAt(b, q) && NameLen(b', at) == NameLen(b, q) && b'[at + 7] == b[q + 7]
    && b'[at + 8..at + 8 + NameLen(b, q)] == b[q + 8..q + 8 + NameLen(b, q)]
  }

  /** Where a scan that comes to `off` finds its next entry, and which one it is, for the entries that
      have to be found: a valid one; one that overruns the block; the one behind a hole, moved
      to the hole; and the one to which a bad entry leads on. */
  predicate Due(b: seq<byte>, off: nat, maxInode: nat, q: nat, at: nat) {
    if Entry(b, off) || Overruns(b, off, maxInode) then q == off && at == off
    else if Hole(b, off) then q == off + 8 && at == off && Entry(b, q)
    else off > 0 && LeadsOn(b, off) && q == off + RecLen(b, off) && at == q && Entry(b, q)
  }

  lemma {:induction false} SalvagedOnce(b: seq<byte>, off: nat, prev: Option<nat>, maxInode: nat, b': seq<byte>,
                                        off': nat)
    requires AtBadEntry(b, off, prev)
    requires var act := Choose(b, off, prev, maxInode);
             Applicable(b, off, prev, act) && b' == Apply(b, off, prev, act) && off' == Moved(off, act)
    requires off' < |b'| && Entry(b', off')
    ensures BlockOk(b) && Scanned(b, off, prev) && Salvaged(b, off, prev, maxInode) == (b', off')
  {
    SalvageProgress(b, off, prev, maxInode);
    SalvageScanned(b, off, prev, maxInode);
    hide Entry, Choose, Apply, Span, Moved, Applicable, Scanned;
    assert Salvaged(b', off', prev, maxInode) == (b', off');
  }

  lemma {:induction false} HoleCovered(b: seq<byte>, b': seq<byte>, off: nat)
    requires Hole(b, off) && Entry(b, off + 8) && |b'| == |b|
    requires forall i :: off <= i < |b| - 8 ==> b'[i] == b[i + 8]
    ensures Entry(b', off) && Same(b, off + 8, b', off)
  {
  }

  lemma {:induction false} SameAlong(b: seq<byte>, b': seq<byte>, q: nat)
    requires Entry(b, q) && OnlyWithin(b, b', 0, q)
    ensures Entry(b', q) && Same(b, q, b', q)
  {
  }

  lemma {:induction false} OverrunCut(b: seq<byte>, b': seq<byte>, off: nat, maxInode: nat)
    requires Overruns(b, off, maxInode) && OnlyWithin(b, b', off + 4, off + 6)
    ensures Same(b, off, b', off)
  {
  }

  lemma {:induction false} AbsorbedBelow(b: seq<byte>, b': seq<byte>, off: nat, p: nat, q: nat)
    requires Scanned(b, off, Some(p)) && OnlyWithin(b, b', p + 4, p + 6) && off <= q
    ensures OnlyWithin(b, b', 0, q)
  {
  }

  /** One salvage brings the scan to the entry due. */
  lemma {:induction false} DueSalvaged(b: seq<byte>, off: nat, prev: Option<nat>, maxInode: nat, b': seq<byte>,
                                       off': nat, q: nat, at: nat)
    requires AtBadEntry(b, off, prev) && Due(b, off, maxInode, q, at) && Salvages(b, off, prev, maxInode, b', off')
    ensures |b'| == |b| && off' == at && Entry(b', at) && Same(b, q, b', at)
  {
    hide Same, RecLen, NameLen, InodeAt;
    if Overruns(b, off, maxInode) {
      OverrunCut(b, b', off, maxInode);
    } else if Hole(b, off) {
      HoleCovered(b, b', off);
    } else {
      assert prev.Some? && prev == Some(prev.value);
      AbsorbedBelow(b, b', off, prev.value, q);
      SameAlong(b, b', q);
    }
  }

  /** The scan comes to the entry due. */
  lemma {:induction false} DueReached(b: seq<byte>, off: nat, prev: Option<nat>, maxInode: nat, q: nat, at: nat)
    requires BlockOk(b) && Scanned(b, off, prev) && off < |b| && Due(b, off, maxInode, q, at)
    ensures var r := Salvaged(b, off, prev, maxInode); r.1 == at && at < |b| && Same(b, q, r.0, at)
  {
    if Entry(b, off) {
      SameAlong(b, b, off);
    } else {
      hide Same, Scanned, Choose, Apply, Salvages, Due;
      SalvageIs(b, off, prev, maxInode);
      var act := Choose(b, off, prev, maxInode);
      DueSalvaged(b, off, prev, maxInode, Apply(b, off, prev, act), Moved(off, act), q, at);
      EntryInside(Apply(b, off, prev, act), at);
      SalvagedOnce(b, off, prev, maxInode, Apply(b, off, prev, act), Moved(off, act));
    }
  }

  lemma {:induction false} EntryInside(b: seq<byte>, at: nat)
    requires Entry(b, at)
    ensures at < |b|
  {
  }

  /** The entry met next, behind those before it. */
  lemma {:induction false} MetNext(b0: seq<byte>, met: seq<Met>, b: seq<byte>, ino: nat, dotState: nat, o: Oracle,
                                   maxInode: nat, i: nat, q: nat, at: nat)
    requires Trace(b0, met, ino, dotState, o, maxInode) && EndsIn(Behind(b0, met), b, maxInode) && i <= |met|
    requires Trace(b0, met[..i], ino, dotState, o, maxInode)
    requires var s := Behind(b0, met[..i]); s.1 < |s.0| && Due(s.0, s.1, maxInode, q, at)
    ensures i < |met| && met[i].off == at && Same(Behind(b0, met[..i]).0, q, met[i].block, at)
  {
    hide Due, Same, Salvaged, LeftBy, Trace;
    var s := Behind(b0, met[..i]);
    if i < |met| {
      TraceLeads(b0, met, ino, dotState, o, maxInode, i);
      DueReached(s.0, s.1, s.2, maxInode, q, at);
    } else {
      assert met[..i] == met;
      DueReached(s.0, s.1, s.2, maxInode, q, at);
    }
  }

  /** The valid entry met next is met as it stands. */
  lemma {:induction false} MetValid(b0: seq<byte>, met: seq<Met>, b: seq<byte>, ino: nat, dotState: nat, o: Oracle,
                                    maxInode: nat, i: nat)
    requires Trace(b0, met, ino, dotState, o, maxInode) && EndsIn(Behind(b0, met), b, maxInode) && i <= |met|
    requires Trace(b0, met[..i], ino, dotState, o, maxInode)
    requires var s := Behind(b0, met[..i]); s.1 < |s.0| && Entry(s.0, s.1)
    ensures i < |met| && met[i].off == Behind(b0, met[..i]).1 && met[i].block == Behind(b0, met[..i]).0
    ensures LeftBy(met[i].block, met[i].after, met[i].off, ino, dotState + i, o)
    ensures Trace(b0, met[..i + 1], ino, dotState, o, maxInode)
    ensures Behind(b0, met[..i + 1]) == (met[i].after, met[i].off + RecLen(met[i].after, met[i].off), Some(met[i].off))
  {
    hide LeftBy, Entry, Trace, Salvaged;
    var s := Behind(b0, met[..i]);
    if i < |met| {
      TraceLeads(b0, met, ino, dotState, o, maxInode, i);
      SalvagedHere(s.0, s.1, s.2, maxInode);
      TracePrefix(b0, met, ino, dotState, o, maxInode, i + 1);
      assert met[..i + 1][i] == met[i];
    } else {
      SalvagedHere(s.0, s.1, s.2, maxInode);
    }
  }

  lemma {:induction false} SalvagedHere(b: seq<byte>, off: nat, prev: Option<nat>, maxInode: nat)
    requires BlockOk(b) && Scanned(b, off, prev) && Entry(b, off)
    ensures Salvaged(b, off, prev, maxInode) == (b, off)
  {
  }

  lemma {:induction false} TracePrefix(b0: seq<byte>, met: seq<Met>, ino: nat, dotState: nat, o: Oracle,
                                       maxInode: nat, i: nat)
    requires Trace(b0, met, ino, dotState, o, maxInode) && i <= |met|
    ensures Trace(b0, met[..i], ino, dotState, o, maxInode)
  {
    hide Leads, Behind;
    if i < |met| {
      TraceLeads(b0, met, ino, dotState, o, maxInode, i);
    } else {
      assert met[..i] == met;
    }
  }

  /** The checks on an entry change nothing behind it, and leave its length, unless it is a long
      first entry. */
  lemma {:induction false} LeftBehind(b0: seq<byte>, m: Met, ino: nat, dotState: nat, o: Oracle)
    requires LeftBy(m.block, m.after, m.off, ino, dotState, o) && |m.block| == |b0|
    requires SameBytes(b0, m.block, m.off, |b0|) && (dotState == 0 ==> RecLen(m.block, m.off) <= 24)
    ensures Entry(b0, m.off) && RecLen(m.after, m.off) == RecLen(b0, m.off)
    ensures SameBytes(b0, m.after, m.off + RecLen(b0, m.off), |b0|)
  {
  }

  /** The entry is not long enough for another one to be split off it. */
  predicate Short(b: seq<byte>, off: nat) {
    off + 6 <= |b| && RecLen(b, off) <= 24
  }

  /** Behind the first `i` entries met the scan is at `lo`, and has changed nothing from there on. */
  ghost predicate Along(b0: seq<byte>, met: seq<Met>, ino: nat, dotState: nat, o: Oracle, maxInode: nat, i: nat,
                        lo: nat)
  {
    && i <= |met| && Trace(b0, met[..i], ino, dotState, o, maxInode)
    && var s := Behind(b0, met[..i]); s.1 == lo && SameBytes(b0, s.0, lo, |b0|)
  }

  /** A valid entry is met, and the scan goes on behind it. */
  lemma {:induction false} AlongMore(b0: seq<byte>, met: seq<Met>, b: seq<byte>, ino: nat, dotState: nat, o: Oracle,
                                     maxInode: nat, i: nat, lo: nat)
    requires Trace(b0, met, ino, dotState, o, maxInode) && EndsIn(Behind(b0, met), b, maxInode)
    requires Along(b0, met, ino, dotState, o, maxInode, i, lo)
    requires lo < |b0| && Entry(b0, lo) && (dotState + i == 0 ==> Short(b0, lo))
    ensures Along(b0, met, ino, dotState, o, maxInode, i + 1, lo + RecLen(b0, lo))
  {
    hide Trace, LeftBy, Salvaged, Behind;
    EntryAlong(b0, Behind(b0, met[..i]).0, lo);
    MetValid(b0, met, b, ino, dotState, o, maxInode, i);
    LeftBehind(b0, met[i], ino, dotState + i, o);
  }

  /** Over a chain of valid entries the scan comes to its end, with the bytes from there on as they
      were. */
  lemma {:induction false} MetAlong(b0: seq<byte>, met: seq<Met>, b: seq<byte>, ino: nat, dotState: nat, o: Oracle,
                                    maxInode: nat, i: nat, lo: nat, hi: nat)
    returns (j: nat)
    requires Trace(b0, met, ino, dotState, o, maxInode) && EndsIn(Behind(b0, met), b, maxInode)
    requires Along(b0, met, ino, dotState, o, maxInode, i, lo)
    requires Chain(b0, lo, hi) && hi <= |b0| && (dotState + i == 0 ==> lo == hi || Short(b0, lo))
    ensures Along(b0, met, ino, dotState, o, maxInode, j, hi)
    decreases hi - lo
  {
    hide Trace, Along, EndsIn, Behind, Entry, Short, RecLen;
    if lo == hi {
      j := i;
    } else {
      EntriesFirst(b0, lo, hi);
      AlongMore(b0, met, b, ino, dotState, o, maxInode, i, lo);
      j := MetAlong(b0, met, b, ino, dotState, o, maxInode, i + 1, lo + RecLen(b0, lo), hi);
    }
  }

  lemma {:induction false} EntryAlong(b0: seq<byte>, b: seq<byte>, lo: nat)
    requires Entry(b0, lo) && SameBytes(b0, b, lo, |b0|)
    ensures lo < |b| && Entry(b, lo) && RecLen(b, lo) == RecLen(b0, lo)
  {
  }

  lemma {:induction false} DueAlong(b0: seq<byte>, b: seq<byte>, off: nat, maxInode: nat, q: nat, at: nat)
    requires SameBytes(b0, b, off, |b0|) && off < |b0| && Due(b0, off, maxInode, q, at)
    ensures Due(b, off, maxInode, q, at)
  {
  }

  lemma {:induction false} SameBack(b0: seq<byte>, b: seq<byte>, off: nat, q: nat, b': seq<byte>, at: nat)
    requires SameBytes(b0, b, off, |b0|) && off <= q && Same(b, q, b', at)
    ensures Same(b0, q, b', at)
  {
    var n := NameLen(b, q);
    assert b0[q + 8..q + 8 + n] == b[q + 8..q + 8 + n];
  }

  /** Up to `off` the block is a chain of valid entries, of which the first is not long if it is to
      be '.'. */
  predicate GoodUpTo(b: seq<byte>, off: nat, dotState: nat) {
    Chain(b, 0, off) && off < |b| && (dotState == 0 && off > 0 ==> Short(b, 0))
  }

  ghost predicate IsMet(b: seq<byte>, q: nat, met: seq<Met>, at: nat) {
    exists i :: 0 <= i < |met| && met[i].off == at && Same(b, q, met[i].block, at)
  }

  /** In a block that is good up to some place, the entry due there is met: the entries that a
      repair has to keep are kept. */
  lemma {:induction false} DueIsMet(b0: seq<byte>, met: seq<Met>, b: seq<byte>, ino: nat, dotState: nat, o: Oracle,
                                    maxInode: nat, off: nat, q: nat, at: nat)
    requires BlockOk(b0) && Trace(b0, met, ino, dotState, o, maxInode) && EndsIn(Behind(b0, met), b, maxInode)
    requires GoodUpTo(b0, off, dotState) && Due(b0, off, maxInode, q, at)
    ensures IsMet(b0, q, met, at)
  {
    hide Due, Same, LeftBy, Salvaged, Chain;
    assert met[..0] == [];
    var j := MetAlong(b0, met, b, ino, dotState, o, maxInode, 0, 0, off);
    var s := Behind(b0, met[..j]);
    DueAlong(b0, s.0, off, maxInode, q, at);
    MetNext(b0, met, b, ino, dotState, o, maxInode, j, q, at);
    DueFrom(b0, off, maxInode, q, at);
    SameBack(b0, s.0, off, q, met[j].block, at);
  }

  lemma {:induction false} DueFrom(b: seq<byte>, off: nat, maxInode: nat, q: nat, at: nat)
    requires Due(b, off, maxInode, q, at)
    ensures off <= q
  {
  }

  // ---- All of it ----

  /** The state of the scan of `b0` after the entries `met`. */
  ghost predicate Tracing(b0: seq<byte>, met: seq<Met>, b: seq<byte>, off: nat, prev: Option<nat>, ino: nat,
                          dotState: nat, o: Oracle, maxInode: nat)
  {
    && Trace(b0, met, ino, dotState, o, maxInode)
    && Reached(Behind(b0, met), b, off, prev, maxInode)
    && Kept(met, b, off)
  }

  lemma {:induction false} TracingBegins(b0: seq<byte>, ino: nat, dotState: nat, o: Oracle, maxInode: nat)
    requires BlockOk(b0)
    ensures Tracing(b0, [], b0, 0, None, ino, dotState, o, maxInode)
  {
  }

  lemma {:induction false} TracingSalvaged(b0: seq<byte>, met: seq<Met>, b: seq<byte>, off: nat, prev: Option<nat>,
                                           ino: nat, dotState: nat, o: Oracle, maxInode: nat)
    requires Tracing(b0, met, b, off, prev, ino, dotState, o, maxInode) && AtBadEntry(b, off, prev)
    ensures var act := Choose(b, off, prev, maxInode);
            && Applicable(b, off, prev, act)
            && Tracing(b0, met, Apply(b, off, prev, act), Moved(off, act), prev, ino, dotState, o, maxInode)
  {
    hide Kept, Trace;
    ReachedSalvaged(Behind(b0, met), b, off, prev, maxInode);
    KeptSalvaged(met, b, off, prev, maxInode);
  }

  lemma {:induction false} TracingChecked(b0: seq<byte>, met: seq<Met>, b: seq<byte>, b': seq<byte>, off: nat,
                                          prev: Option<nat>, ino: nat, dotState: nat, o: Oracle, maxInode: nat)
    requires Tracing(b0, met, b, off, prev, ino, dotState, o, maxInode)
    requires Entry(b, off) && LeftBy(b, b', off, ino, dotState + |met|, o)
    requires Scanned(b', off + RecLen(b', off), Some(off))
    ensures Tracing(b0, met + [Met(off, b, b')], b', off + RecLen(b', off), Some(off), ino, dotState, o, maxInode)
  {
    hide Kept, Trace, Reached;
    ReachedChecked(b0, met, b, b', off, prev, ino, dotState, o, maxInode);
    KeptChecked(met, b, b', off);
  }

  lemma {:induction false} TracingEndsIn(b0: seq<byte>, met: seq<Met>, b: seq<byte>, prev: Option<nat>, ino: nat,
                                         dotState: nat, o: Oracle, maxInode: nat)
    requires Tracing(b0, met, b, |b|, prev, ino, dotState, o, maxInode)
    ensures Trace(b0, met, ino, dotState, o, maxInode) && Kept(met, b, |b|)
    ensures EndsIn(Behind(b0, met), b, maxInode)
  {
    hide Trace, Kept;
  }

  /** What the scan ends with. */
  lemma {:induction false} TracingEnds(b0: seq<byte>, met: seq<Met>, b: seq<byte>, prev: Option<nat>, ino: nat,
                                       dotState: nat, o: Oracle, maxInode: nat)
    requires Tracing(b0, met, b, |b|, prev, ino, dotState, o, maxInode)
    ensures Trace(b0, met, ino, dotState, o, maxInode) && Kept(met, b, |b|)
    ensures EndsIn(Behind(b0, met), b, maxInode)
    ensures forall i :: 0 <= i < |met| && dotState + i > 1 ==>
              (UsedDots(b, met[i].off) <==> TurnsToDots(met[i], ino, o))
    ensures dotState == 0 && |met| >= 2 ==> SecondIsDotDot(b, met[1].off, o)
    ensures forall i :: 0 <= i < |met| && dotState + i > 1 ==> LinkOk(b, met[i].off, ino)
    ensures forall i :: 0 <= i < |met| && dotState + i > 1 ==> InodeKept(met[i], b, ino, o)
    ensures forall i :: 0 <= i < |met| ==> TypeOk(b, met[i].off, o)
    ensures BlockOk(b0) ==> forall off, q, at :: GoodUpTo(b0, off, dotState) && Due(b0, off, maxInode, q, at) ==>
              IsMet(b0, q, met, at)
  {
    hide Trace, Kept, GoodUpTo, Due, IsMet, LinkOk, TypeOk, InodeKept, UsedDots, TurnsToDots, Behind, EndsIn;
    if BlockOk(b0) {
      forall off, q, at | GoodUpTo(b0, off, dotState) && Due(b0, off, maxInode, q, at) ensures IsMet(b0, q, met, at) {
        TracingEndsIn(b0, met, b, prev, ino, dotState, o, maxInode);
        DueIsMet(b0, met, b, ino, dotState, o, maxInode, off, q, at);
      }
    }
    TracingEndsIn(b0, met, b, prev, ino, dotState, o, maxInode);
    LinksAtEnd(b0, met, b, ino, dotState, o, maxInode);
    InodesAtEnd(b0, met, b, ino, dotState, o, maxInode);
    TypesAtEnd(b0, met, b, ino, dotState, o, maxInode);
    DotsAtEnd(b0, met, b, ino, dotState, o, maxInode);
    if dotState == 0 && |met| >= 2 {
      DotDotAtEnd(b0, met, b, ino, o, maxInode);
    }
  }

  /** The entry is '..', and in use unless its inode number is rejected. */
  predicate SecondIsDotDot(b: seq<byte>, q: nat, o: Oracle) {
    Entry(b, q) && NameLen(b, q) == 2 && Dots(b, q) && (InodeAt(b, q) == 0 <==> o.rejects(q))
  }
}
