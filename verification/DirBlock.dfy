/** Directory blocks as bytes, and the repair of a corrupted entry (e2fsck/pass2.c), for blocks
    that are not inline, have no checksum tail and no hash in the entries. */
module DirBlock {
  import opened Basics

  const EXT2_DIR_ENTRY_HEADER_LEN: nat := 8

  // ---- The fields of an entry (little endian) ----

  function InodeAt(b: seq<byte>, off: nat): nat
    requires off + 4 <= |b|
  {
    b[off] as int + 0x100 * b[off + 1] as int
    + 0x1_0000 * b[off + 2] as int + 0x100_0000 * b[off + 3] as int
  }

  function RecLen(b: seq<byte>, off: nat): nat
    requires off + 6 <= |b|
  {
    b[off + 4] as int + 0x100 * b[off + 5] as int
  }

  function NameLen(b: seq<byte>, off: nat): nat
    requires off + 7 <= |b|
  {
    b[off + 6]
  }

  /** ext2fs_dir_rec_len without a hash: the header and the name, rounded up to 4. */
  function DirRecLen(nameLen: nat): nat {
    (nameLen + EXT2_DIR_ENTRY_HEADER_LEN + 3) / 4 * 4
  }

  /** The least multiple of 4 that holds the header and the name. */
  lemma {:induction false} DirRecLenLeast(nameLen: nat)
    ensures DirRecLen(nameLen) % 4 == 0 && nameLen + 8 <= DirRecLen(nameLen) < nameLen + 12
  {
  }

  // ---- Valid entries and chains of them ----

  /** The entry test of check_dir_block, passed. */
  predicate Entry(b: seq<byte>, off: nat) {
    && off + 8 <= |b|
    && off + RecLen(b, off) <= |b|
    && 12 <= RecLen(b, off)
    && RecLen(b, off) % 4 == 0
    && DirRecLen(NameLen(b, off)) <= RecLen(b, off)
  }

  /** Valid entries follow each other from `lo` to exactly `hi`. */
  predicate Chain(b: seq<byte>, lo: nat, hi: nat)
    decreases hi - lo
  {
    lo == hi || (lo < hi && Entry(b, lo) && lo + RecLen(b, lo) <= hi
                 && Chain(b, lo + RecLen(b, lo), hi))
  }

  /** `a` and `b` hold the same bytes from `lo` up to `hi`. */
  predicate SameBytes(a: seq<byte>, b: seq<byte>, lo: nat, hi: nat) {
    |a| == |b| && hi <= |a| && forall i :: lo <= i < hi ==> a[i] == b[i]
  }

  lemma {:induction false} ChainFrame(a: seq<byte>, b: seq<byte>, lo: nat, hi: nat)
    requires Chain(a, lo, hi) && SameBytes(a, b, lo, hi)
    ensures Chain(b, lo, hi)
    decreases hi - lo
  {
    if lo < hi {
      assert RecLen(b, lo) == RecLen(a, lo) && NameLen(b, lo) == NameLen(a, lo);
      ChainFrame(a, b, lo + RecLen(a, lo), hi);
    }
  }

  lemma {:induction false} ChainAppend(b: seq<byte>, lo: nat, p: nat)
    requires Chain(b, lo, p) && Entry(b, p)
    ensures Chain(b, lo, p + RecLen(b, p))
    decreases p - lo
  {
    if lo < p {
      ChainAppend(b, lo + RecLen(b, lo), p);
    }
  }

  lemma {:induction false} ChainOrder(b: seq<byte>, lo: nat, q: nat, p: nat)
    requires Chain(b, lo, q) && Entry(b, q) && Chain(b, lo, p) && lo <= q < p
    ensures q + RecLen(b, q) <= p
    decreases q - lo
  {
    if lo < q {
      ChainOrder(b, lo + RecLen(b, lo), q, p);
    }
  }

  // ---- salvage_directory ----

  /** ext2fs_set_rec_len on a block smaller than 64 KiB: refuses a bad length. */
  function SetRecLen(b: seq<byte>, off: nat, len: nat): (r: seq<byte>)
    requires off + 6 <= |b| < 65536
    ensures |r| == |b|
  {
    if len > |b| || len % 4 != 0 then b
    else b[off + 4 := len % 256][off + 5 := len / 256]
  }

  lemma {:induction false} SetRecLenValue(b: seq<byte>, off: nat, len: nat)
    requires off + 8 <= |b| < 65536 && len <= |b| && len % 4 == 0
    ensures var r := SetRecLen(b, off, len);
            && RecLen(r, off) == len
            && NameLen(r, off) == NameLen(b, off) && InodeAt(r, off) == InodeAt(b, off)
            && (forall i :: 0 <= i < |b| && i != off + 4 && i != off + 5 ==> r[i] == b[i])
  {
  }

  /** Move the rest of the block up over an 8-byte hole, and clear what it leaves. */
  function CoverHole(b: seq<byte>, off: nat): (r: seq<byte>)
    requires off + 8 <= |b|
    ensures |r| == |b|
  {
    b[..off] + b[off + 8..] + seq(8, _ => 0)
  }

  /** An unused entry over the rest of the block. */
  function ClearEntry(b: seq<byte>, off: nat): (r: seq<byte>)
    requires off + 8 <= |b| < 65536
    ensures |r| == |b|
  {
    SetRecLen(b, off, |b| - off)[off + 6 := 0][off + 7 := 0]
      [off := 0][off + 1 := 0][off + 2 := 0][off + 3 := 0]
  }

  /** strnlen finds no NUL among the first `len` bytes of the name. */
  predicate NoNul(b: seq<byte>, start: nat, len: nat)
    requires start + len <= |b|
  {
    forall i :: start <= i < start + len ==> b[i] != 0
  }

  /** The entry overruns the block, but its name fits and looks sane. */
  predicate OverrunFits(b: seq<byte>, off: nat, maxInode: nat) {
    && off + 8 < |b| < off + RecLen(b, off)
    && DirRecLen(NameLen(b, off)) <= |b| - off
    && InodeAt(b, off) <= maxInode
    && NoNul(b, off + 8, NameLen(b, off))
  }

  /** What a salvage does: cover an 8-byte hole, trim an entry to the block, let the previous
      entry absorb some bytes, or clear the rest of the block. */
  datatype Action = Cover | Trim | Absorb(bytes: nat) | Clear

  /** Which of them it is; `prev` is the last accepted entry. */
  function Choose(b: seq<byte>, off: nat, prev: Option<nat>, maxInode: nat): Action
    requires off < |b|
  {
    var n := |b|;
    var rec := if n - off < 8 then n - off else RecLen(b, off);
    if off + rec + 12 <= n && rec == 8 then Cover
    else if n - off >= 8 && OverrunFits(b, off, maxInode) then Trim
    else if prev.Some? && rec > 0 && rec % 4 == 0 && off + rec <= n then Absorb(rec)
    else if prev.Some? then Absorb(n - off)
    else Clear
  }

  predicate Applicable(b: seq<byte>, off: nat, prev: Option<nat>, act: Action) {
    && off <= |b| < 65536
    && (act.Absorb? ==> prev.Some? && prev.value + 8 <= |b|)
    && (!act.Absorb? ==> off + 8 <= |b|)
  }

  function Apply(b: seq<byte>, off: nat, prev: Option<nat>, act: Action): (r: seq<byte>)
    requires Applicable(b, off, prev, act)
    ensures |r| == |b|
  {
    match act
    case Cover => CoverHole(b, off)
    case Trim => SetRecLen(b, off, |b| - off)
    case Absorb(bytes) => SetRecLen(b, prev.value, RecLen(b, prev.value) + bytes)
    case Clear => ClearEntry(b, off)
  }

  function Moved(off: nat, act: Action): nat {
    if act.Absorb? then off + act.bytes else off
  }

  // ---- The state of the scan ----

  /** The entries before `off` are a chain that ends with the entry at `prev`. */
  predicate Scanned(b: seq<byte>, off: nat, prev: Option<nat>) {
    && off <= |b| && off % 4 == 0
    && (prev.None? ==> off == 0)
    && (prev.Some? ==>
          && Entry(b, prev.value) && prev.value + RecLen(b, prev.value) == off
          && Chain(b, 0, prev.value))
  }

  /** A block as pass 2 handles it here. */
  predicate BlockOk(b: seq<byte>) {
    1024 <= |b| < 65536 && |b| % 4 == 0
  }

  /** The entry at `q` was accepted: it is one of the chain before `off`. */
  predicate Accepted(b: seq<byte>, q: nat, off: nat) {
    Chain(b, 0, q) && Entry(b, q) && q + RecLen(b, q) <= off && Chain(b, q + RecLen(b, q), off)
  }

  /** The number of bytes from `off` up to the last one that is not zero. */
  function Span(b: seq<byte>, off: nat): (k: nat)
    ensures k <= if off <= |b| then |b| - off else 0
    decreases |b|
  {
    if |b| <= off then 0
    else if b[|b| - 1] != 0 then |b| - off
    else Span(b[..|b| - 1], off)
  }

  lemma {:induction false} SpanZeroBehind(b: seq<byte>, off: nat, i: nat)
    requires off + Span(b, off) <= i < |b| && off <= i
    ensures b[i] == 0
    decreases |b|
  {
    if b[|b| - 1] == 0 && i < |b| - 1 {
      SpanZeroBehind(b[..|b| - 1], off, i);
    }
  }

  lemma {:induction false} SpanBound(b: seq<byte>, off: nat, k: nat)
    requires forall i :: off + k <= i < |b| ==> b[i] == 0
    ensures Span(b, off) <= k
    decreases |b|
  {
    if off < |b| && b[|b| - 1] == 0 {
      SpanBound(b[..|b| - 1], off, k);
    }
  }

  /** Covering a hole moves the last byte that is not zero closer. */
  lemma {:induction false} CoverHoleShrinks(b: seq<byte>, off: nat)
    requires off + 8 <= |b| && RecLen(b, off) == 8
    ensures Span(CoverHole(b, off), off) < Span(b, off)
  {
    var r, k := CoverHole(b, off), Span(b, off);
    if k <= 4 {
      SpanZeroBehind(b, off, off + 4);
      SpanZeroBehind(b, off, off + 5);
    }
    var m := if k > 8 then k - 8 else 0;
    forall i | off + m <= i < |r| ensures r[i] == 0 {
      if i < |b| - 8 {
        assert r[i] == b[i + 8];
        SpanZeroBehind(b, off, i + 8);
      }
    }
    SpanBound(r, off, m);
  }

  /** Rank of a position for termination: a valid entry is accepted next. */
  function Rank(b: seq<byte>, off: nat): nat {
    if Entry(b, off) then 0 else 1
  }

  /** The scan is at a corrupted entry. */
  predicate AtBadEntry(b: seq<byte>, off: nat, prev: Option<nat>) {
    BlockOk(b) && Scanned(b, off, prev) && off < |b| && !Entry(b, off)
  }

  lemma {:induction false} ChooseFacts(b: seq<byte>, off: nat, prev: Option<nat>, maxInode: nat)
    requires AtBadEntry(b, off, prev)
    ensures var act := Choose(b, off, prev, maxInode);
            && Applicable(b, off, prev, act)
            && (act == Cover ==> RecLen(b, off) == 8)
            && (act == Trim ==> |b| - off >= 12 && DirRecLen(NameLen(b, off)) <= |b| - off)
            && (act.Absorb? ==> 0 < act.bytes && off + act.bytes <= |b| && act.bytes % 4 == 0)
            && (act == Clear ==> prev.None? && off == 0)
  {
  }

  /** Each salvage makes progress: the offset moves on, or the entry there becomes valid, or
      the block has fewer bytes left before its final zeros. */
  lemma {:induction false} SalvageProgress(b: seq<byte>, off: nat, prev: Option<nat>, maxInode: nat)
    requires AtBadEntry(b, off, prev)
    ensures var act := Choose(b, off, prev, maxInode);
            && Applicable(b, off, prev, act)
            && var b', off' := Apply(b, off, prev, act), Moved(off, act);
               || off < off' <= |b|
               || (off' == off && Rank(b', off') < Rank(b, off))
               || (off' == off && Rank(b', off') <= Rank(b, off) && Span(b', off') < Span(b, off))
  {
    ChooseFacts(b, off, prev, maxInode);
    match Choose(b, off, prev, maxInode)
    case Cover => CoverHoleShrinks(b, off);
    case Trim => SetRecLenValue(b, off, |b| - off);
    case Absorb(_) =>
    case Clear => ClearEntryValid(b, off);
  }

  lemma {:induction false} ClearEntryValid(b: seq<byte>, off: nat)
    requires BlockOk(b) && off == 0
    ensures Entry(ClearEntry(b, off), off)
  {
    SetRecLenValue(b, off, |b| - off);
  }

  lemma {:induction false} AlignedSum(a: nat, b: nat)
    requires a % 4 == 0 && b % 4 == 0
    ensures (a + b) % 4 == 0
  {
  }

  /** Lengthening the last entry of a chain moves its end. */
  lemma {:induction false} ExtendLast(b: seq<byte>, off: nat, p: nat, add: nat)
    requires BlockOk(b) && Scanned(b, off, Some(p)) && off + add <= |b| && add % 4 == 0
    ensures Scanned(SetRecLen(b, p, RecLen(b, p) + add), off + add, Some(p))
  {
    AlignedSum(RecLen(b, p), add);
    AlignedSum(off, add);
    SetRecLenValue(b, p, RecLen(b, p) + add);
    ChainFrame(b, SetRecLen(b, p, RecLen(b, p) + add), 0, p);
  }

  lemma {:induction false} ScannedFrame(a: seq<byte>, b: seq<byte>, off: nat, prev: Option<nat>)
    requires Scanned(a, off, prev) && SameBytes(a, b, 0, off)
    ensures Scanned(b, off, prev)
  {
    if prev.Some? {
      var p := prev.value;
      ChainFrame(a, b, 0, p);
      assert RecLen(b, p) == RecLen(a, p) && NameLen(b, p) == NameLen(a, p);
    }
  }

  /** Below the offset, only the record length of the last accepted entry may change. */
  predicate KeptBelow(b: seq<byte>, b': seq<byte>, off: nat, prev: Option<nat>) {
    && |b'| == |b| && off <= |b|
    && forall i :: 0 <= i < off && (prev.Some? ==> i != prev.value + 4 && i != prev.value + 5) ==>
         b'[i] == b[i]
  }

  lemma {:induction false} AbsorbScanned(b: seq<byte>, off: nat, p: nat, bytes: nat)
    requires BlockOk(b) && Scanned(b, off, Some(p)) && off + bytes <= |b| && bytes % 4 == 0
    ensures var b' := SetRecLen(b, p, RecLen(b, p) + bytes);
            Scanned(b', off + bytes, Some(p)) && KeptBelow(b, b', off + bytes, Some(p))
  {
    SetRecLenValue(b, p, RecLen(b, p) + bytes);
    ExtendLast(b, off, p, bytes);
  }

  /** Actions on the bytes from the offset on leave the scan state alone. */
  lemma {:induction false} InPlaceScanned(b: seq<byte>, off: nat, prev: Option<nat>, act: Action)
    requires BlockOk(b) && Scanned(b, off, prev) && Applicable(b, off, prev, act) && !act.Absorb?
    ensures Scanned(Apply(b, off, prev, act), off, prev)
    ensures KeptBelow(b, Apply(b, off, prev, act), off, prev)
  {
    ScannedFrame(b, Apply(b, off, prev, act), off, prev);
  }

  /** The scan state survives a salvage. */
  lemma {:induction false} SalvageScanned(b: seq<byte>, off: nat, prev: Option<nat>, maxInode: nat)
    requires AtBadEntry(b, off, prev)
    ensures var act := Choose(b, off, prev, maxInode);
            && Applicable(b, off, prev, act)
            && Scanned(Apply(b, off, prev, act), Moved(off, act), prev)
            && KeptBelow(b, Apply(b, off, prev, act), Moved(off, act), prev)
  {
    ChooseFacts(b, off, prev, maxInode);
    var act := Choose(b, off, prev, maxInode);
    if act.Absorb? {
      assert prev == Some(prev.value);
      AbsorbScanned(b, off, prev.value, act.bytes);
    } else {
      InPlaceScanned(b, off, prev, act);
    }
  }

  // ---- What a salvage does, byte by byte ----

  /** The entry overruns the block, but its name fits into it, has no NUL, and its inode exists. */
  predicate Overruns(b: seq<byte>, off: nat, maxInode: nat) {
    && off + 8 < |b| && off + RecLen(b, off) > |b| && off + 8 + NameLen(b, off) <= |b|
    && InodeAt(b, off) <= maxInode
    && forall i :: off + 8 <= i < off + 8 + NameLen(b, off) ==> b[i] != 0
  }

  /** An entry of 8 bytes with room for a smallest entry behind it. */
  predicate Hole(b: seq<byte>, off: nat) {
    off + 20 <= |b| && RecLen(b, off) == 8
  }

  /** The record length leads to a place in the block where an entry could be. */
  predicate LeadsOn(b: seq<byte>, off: nat) {
    off + 8 <= |b| && RecLen(b, off) > 0 && RecLen(b, off) % 4 == 0 && off + RecLen(b, off) <= |b|
  }

  /** Outside the bytes from `lo` up to `hi` nothing changed. */
  predicate OnlyWithin(a: seq<byte>, b: seq<byte>, lo: nat, hi: nat) {
    |a| == |b| && forall i :: 0 <= i < |a| && !(lo <= i < hi) ==> b[i] == a[i]
  }

  /** The salvage of the invalid entry at `off`, `prev` being the last accepted one, and where the
      scan goes on: an entry that overruns is cut at the end of the block; what is behind a hole
      moves up over it; else the previous entry absorbs the bytes up to where the record length
      leads, or up to the end of the block; and with no previous entry the block is emptied. */
  predicate Salvages(b: seq<byte>, off: nat, prev: Option<nat>, maxInode: nat, b': seq<byte>, off': nat)
    requires off < |b|
  {
    if Overruns(b, off, maxInode) then
      off' == off && OnlyWithin(b, b', off + 4, off + 6) && Entry(b', off) && off + RecLen(b', off) == |b|
    else if Hole(b, off) then
      && off' == off && OnlyWithin(b, b', off, |b|)
      && (forall i :: off <= i < |b| - 8 ==> b'[i] == b[i + 8])
      && (forall i :: |b| - 8 <= i < |b| ==> b'[i] == 0)
    else if prev.None? then
      && off' == off && OnlyWithin(b, b', off, off + 8)
      && Entry(b', off) && InodeAt(b', off) == 0 && NameLen(b', off) == 0 && off + RecLen(b', off) == |b|
    else
      var p := prev.value;
      && off' == (if LeadsOn(b, off) then off + RecLen(b, off) else |b|)
      && OnlyWithin(b, b', p + 4, p + 6) && p + 6 <= |b| && p + RecLen(b', p) == off'
  }

  lemma {:induction false} NameFits(b: seq<byte>, off: nat, maxInode: nat)
    requires BlockOk(b) && off % 4 == 0 && off + 8 < |b|
    ensures Overruns(b, off, maxInode) <==> OverrunFits(b, off, maxInode)
    ensures |b| - off >= 12
  {
    DirRecLenLeast(NameLen(b, off));
    var n := DirRecLen(NameLen(b, off));
    assert (|b| - off) % 4 == 0;
    assert n <= |b| - off <==> 8 + NameLen(b, off) <= |b| - off;
  }

  lemma {:induction false} TrimDue(b: seq<byte>, off: nat, prev: Option<nat>, maxInode: nat)
    requires AtBadEntry(b, off, prev) && Overruns(b, off, maxInode)
    ensures Choose(b, off, prev, maxInode) == Trim
  {
    hide OverrunFits, Entry, InodeAt, NameLen, Scanned;
    OffsetAligned(b, off, prev);
    NameFits(b, off, maxInode);
  }

  lemma {:induction false} OffsetAligned(b: seq<byte>, off: nat, prev: Option<nat>)
    requires Scanned(b, off, prev)
    ensures off % 4 == 0 && off <= |b|
  {
  }

  lemma {:induction false} TrimSalvages(b: seq<byte>, off: nat, prev: Option<nat>, maxInode: nat)
    requires BlockOk(b) && off % 4 == 0 && Overruns(b, off, maxInode)
    ensures Salvages(b, off, prev, maxInode, SetRecLen(b, off, |b| - off), off)
  {
    hide InodeAt, OverrunFits;
    NameFits(b, off, maxInode);
    SetRecLenValue(b, off, |b| - off);
    DirRecLenLeast(NameLen(b, off));
    hide SetRecLen;
  }

  lemma {:induction false} CoverSalvages(b: seq<byte>, off: nat, prev: Option<nat>, maxInode: nat)
    requires AtBadEntry(b, off, prev) && Hole(b, off)
    ensures Choose(b, off, prev, maxInode) == Cover
    ensures Salvages(b, off, prev, maxInode, CoverHole(b, off), off)
  {
  }

  lemma {:induction false} RestSalvages(b: seq<byte>, off: nat, prev: Option<nat>, maxInode: nat)
    requires AtBadEntry(b, off, prev) && !Overruns(b, off, maxInode) && !Hole(b, off)
    ensures Choose(b, off, prev, maxInode) == if prev.None? then Clear
                                              else if LeadsOn(b, off) then Absorb(RecLen(b, off))
                                              else Absorb(|b| - off)
  {
    if off + 8 < |b| { NameFits(b, off, maxInode); }
  }

  lemma {:induction false} AbsorbSalvages(b: seq<byte>, off: nat, p: nat, maxInode: nat)
    requires AtBadEntry(b, off, Some(p)) && !Overruns(b, off, maxInode) && !Hole(b, off)
    ensures var bytes := if LeadsOn(b, off) then RecLen(b, off) else |b| - off;
            Salvages(b, off, Some(p), maxInode, SetRecLen(b, p, RecLen(b, p) + bytes), off + bytes)
  {
    hide Overruns, Hole, Entry, Chain, InodeAt, NameLen;
    var bytes := if LeadsOn(b, off) then RecLen(b, off) else |b| - off;
    LastInside(b, off, p);
    AlignedSum(RecLen(b, p), bytes);
    SetRecLenValue(b, p, RecLen(b, p) + bytes);
    hide SetRecLen, RecLen;
  }

  lemma {:induction false} LastInside(b: seq<byte>, off: nat, p: nat)
    requires BlockOk(b) && Scanned(b, off, Some(p))
    ensures p + 8 <= |b| < 65536 && p + RecLen(b, p) == off && RecLen(b, p) % 4 == 0 && (|b| - off) % 4 == 0
  {
  }

  lemma {:induction false} ClearSalvages(b: seq<byte>, off: nat, maxInode: nat)
    requires AtBadEntry(b, off, None) && !Overruns(b, off, maxInode) && !Hole(b, off)
    ensures Salvages(b, off, None, maxInode, ClearEntry(b, off), off)
  {
    SetRecLenValue(b, off, |b| - off);
  }

  /** The action chosen does what a salvage is to do. */
  lemma {:induction false} SalvageIs(b: seq<byte>, off: nat, prev: Option<nat>, maxInode: nat)
    requires AtBadEntry(b, off, prev)
    ensures var act := Choose(b, off, prev, maxInode);
            && Applicable(b, off, prev, act)
            && Salvages(b, off, prev, maxInode, Apply(b, off, prev, act), Moved(off, act))
  {
    ChooseFacts(b, off, prev, maxInode);
    hide Salvages, Choose, Scanned, Entry, SetRecLen, CoverHole, ClearEntry, Overruns, Hole, LeadsOn;
    if Overruns(b, off, maxInode) {
      TrimDue(b, off, prev, maxInode);
      OffsetAligned(b, off, prev);
      TrimSalvages(b, off, prev, maxInode);
    } else if Hole(b, off) {
      CoverSalvages(b, off, prev, maxInode);
    } else {
      RestSalvages(b, off, prev, maxInode);
      if prev.Some? {
        assert prev == Some(prev.value);
        AbsorbSalvages(b, off, prev.value, maxInode);
      } else {
        ClearSalvages(b, off, maxInode);
      }
    }
  }

  /** The entry at `q` reads the same in both blocks, but for its record length. */
  predicate SameEntry(b: seq<byte>, b': seq<byte>, q: nat)
    requires |b'| == |b| && q + 8 <= |b| && q + 8 + NameLen(b, q) <= |b|
  {
    && InodeAt(b', q) == InodeAt(b, q)
    && b'[q + 6] == b[q + 6] && b'[q + 7] == b[q + 7]
    && b'[q + 8..q + 8 + NameLen(b, q)] == b[q + 8..q + 8 + NameLen(b, q)]
  }

  /** A salvage never changes the inode, the type or the name of an accepted entry, and the
      entry stays accepted. */
  lemma {:induction false} SalvageKeepsEntry(b: seq<byte>, off: nat, prev: Option<nat>, maxInode: nat, q: nat)
    requires AtBadEntry(b, off, prev) && Accepted(b, q, off)
    ensures var act := Choose(b, off, prev, maxInode);
            && Applicable(b, off, prev, act)
            && Accepted(Apply(b, off, prev, act), q, Moved(off, act))
            && SameEntry(b, Apply(b, off, prev, act), q)
  {
    SalvageScanned(b, off, prev, maxInode);
    var act := Choose(b, off, prev, maxInode);
    KeptEntry(b, Apply(b, off, prev, act), off, Moved(off, act), prev.value, q);
  }

  lemma {:induction false} KeptInner(b: seq<byte>, b': seq<byte>, off: nat, p: nat, q: nat)
    requires Scanned(b, off, Some(p)) && KeptBelow(b, b', off, Some(p)) && Entry(b', p)
    requires Chain(b, 0, q) && Entry(b, q) && q < p
    ensures Accepted(b', q, p + RecLen(b', p)) && SameEntry(b, b', q)
  {
    hide SameEntry, InodeAt, NameLen, RecLen;
    ChainOrder(b, 0, q, p);
    KeptFields(b, b', q);
    ChainFrame(b, b', 0, q);
    ChainSplit(b, 0, q, p);
    ChainFrame(b, b', q + RecLen(b, q), p);
    ChainAppend(b', q + RecLen(b, q), p);
  }

  lemma {:induction false} LastAccepted(b: seq<byte>, off: nat, p: nat, q: nat)
    requires Scanned(b, off, Some(p)) && Accepted(b, q, off)
    ensures q <= p
  {
    if p < q {
      ChainOrder(b, 0, p, q);
    }
  }

  lemma {:induction false} KeptEntry(b: seq<byte>, b': seq<byte>, off: nat, off': nat, p: nat, q: nat)
    requires Scanned(b, off, Some(p)) && Scanned(b', off', Some(p)) && KeptBelow(b, b', off, Some(p))
    requires Accepted(b, q, off)
    ensures Accepted(b', q, off') && SameEntry(b, b', q)
  {
    LastAccepted(b, off, p, q);
    if q < p {
      KeptInner(b, b', off, p, q);
    } else {
      KeptLast(b, b', p);
    }
  }

  lemma {:induction false} KeptFields(b: seq<byte>, b': seq<byte>, q: nat)
    requires Entry(b, q) && SameBytes(b, b', q, q + RecLen(b, q))
    ensures Entry(b', q) && RecLen(b', q) == RecLen(b, q) && SameEntry(b, b', q)
  {
  }

  lemma {:induction false} KeptLast(b: seq<byte>, b': seq<byte>, q: nat)
    requires Entry(b, q) && |b'| == |b|
    requires forall i :: q <= i < q + RecLen(b, q) && i != q + 4 && i != q + 5 ==> b'[i] == b[i]
    ensures SameEntry(b, b', q)
  {
  }

  /** A chain through two positions passes from the first to the second. */
  lemma {:induction false} ChainSplit(b: seq<byte>, lo: nat, q: nat, p: nat)
    requires Chain(b, lo, q) && Entry(b, q) && Chain(b, lo, p) && lo <= q < p
    ensures Chain(b, q + RecLen(b, q), p)
    decreases q - lo
  {
    if lo < q {
      ChainSplit(b, lo + RecLen(b, lo), q, p);
    }
  }

  // ---- The names of the accepted entries ----

  const SLASH: byte := 47
  const DOT: byte := 46

  /** The name is not empty and has no '/' and no NUL. */
  predicate CleanName(b: seq<byte>, q: nat)
    requires Entry(b, q)
  {
    && NameLen(b, q) > 0
    && forall i :: q + 8 <= i < q + 8 + NameLen(b, q) ==> b[i] != SLASH && b[i] != 0
  }

  predicate CleanIfUsed(b: seq<byte>, q: nat)
    requires Entry(b, q)
  {
    InodeAt(b, q) == 0 || CleanName(b, q)
  }

  /** Every entry before `off` that is in use has a clean name. */
  ghost predicate AllClean(b: seq<byte>, off: nat) {
    forall q: nat :: Accepted(b, q, off) ==> CleanIfUsed(b, q)
  }

  lemma {:induction false} SameEntryClean(b: seq<byte>, b': seq<byte>, q: nat)
    requires Entry(b, q) && Entry(b', q) && |b'| == |b| && SameEntry(b, b', q) && CleanIfUsed(b, q)
    ensures CleanIfUsed(b', q)
  {
    var n := NameLen(b, q);
    forall i | q + 8 <= i < q + 8 + n ensures b'[i] == b[i] {
      assert b'[i] == b'[q + 8..q + 8 + n][i - q - 8];
      assert b[i] == b[q + 8..q + 8 + n][i - q - 8];
    }
  }

  /** A salvage brings no new entry into the chain before the offset. */
  lemma {:induction false} SalvageKeepsClean(b: seq<byte>, off: nat, prev: Option<nat>, maxInode: nat)
    requires AtBadEntry(b, off, prev) && AllClean(b, off)
    ensures var act := Choose(b, off, prev, maxInode);
            Applicable(b, off, prev, act) && AllClean(Apply(b, off, prev, act), Moved(off, act))
  {
    SalvageScanned(b, off, prev, maxInode);
    var act := Choose(b, off, prev, maxInode);
    var b', off' := Apply(b, off, prev, act), Moved(off, act);
    forall q: nat | Accepted(b', q, off') ensures CleanIfUsed(b', q) {
      if prev.Some? {
        KeptEntry(b', b, off', off, prev.value, q);
        KeptEntry(b, b', off, off', prev.value, q);
        SameEntryClean(b, b', q);
      }
    }
  }

  lemma {:induction false} AcceptScanned(b: seq<byte>, off: nat, prev: Option<nat>)
    requires Scanned(b, off, prev) && Entry(b, off)
    ensures Scanned(b, off + RecLen(b, off), Some(off))
  {
    AlignedSum(off, RecLen(b, off));
    if prev.Some? {
      ChainAppend(b, 0, prev.value);
    }
  }

  lemma {:induction false} AcceptedBefore(b: seq<byte>, off: nat, q: nat)
    requires Entry(b, off)
    requires Scanned(b, off + RecLen(b, off), Some(off)) && Accepted(b, q, off + RecLen(b, off))
    ensures q == off || Accepted(b, q, off)
  {
    LastAccepted(b, off + RecLen(b, off), off, q);
    if q < off {
      ChainOrder(b, 0, q, off);
      ChainSplit(b, 0, q, off);
    }
  }

  /** Accepting the entry at `off` adds that entry and no other. */
  lemma {:induction false} AcceptKeepsClean(b: seq<byte>, off: nat, prev: Option<nat>)
    requires Scanned(b, off, prev) && Entry(b, off) && CleanIfUsed(b, off)
    requires AllClean(b, off)
    ensures Scanned(b, off + RecLen(b, off), Some(off)) && AllClean(b, off + RecLen(b, off))
  {
    AcceptScanned(b, off, prev);
    forall q: nat | Accepted(b, q, off + RecLen(b, off)) ensures CleanIfUsed(b, q) {
      AcceptedBefore(b, off, q);
    }
  }

  /** Changing bytes from `off` on changes nothing before it. */
  lemma {:induction false} AllCleanFrame(a: seq<byte>, b: seq<byte>, off: nat)
    requires AllClean(a, off) && SameBytes(a, b, 0, off)
    ensures AllClean(b, off)
  {
    forall q: nat | Accepted(b, q, off) ensures CleanIfUsed(b, q) {
      ChainFrame(b, a, 0, q);
      KeptFields(b, a, q);
      ChainFrame(b, a, q + RecLen(b, q), off);
      assert Accepted(a, q, off);
      SameEntryClean(a, b, q);
    }
  }
}
