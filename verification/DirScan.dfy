/** The scan of one directory block in pass 2 (e2fsck/pass2.c), every repair accepted, on the
    bytes of the block in place. */
module DirScan {
  import opened Basics
  import opened DirBlock
  import opened DirTrace

  // ---- Writing fields in place ----

  method SetRec(buf: array<byte>, off: nat, len: nat)
    requires off + 6 <= buf.Length < 65536
    modifies buf
    ensures buf[..] == SetRecLen(old(buf[..]), off, len)
  {
    if len <= buf.Length && len % 4 == 0 {
      buf[off + 4], buf[off + 5] := len % 256, len / 256;
    }
  }

  method SetInode(buf: array<byte>, off: nat, ino: nat)
    requires off + 8 <= buf.Length && ino < 0x1_0000_0000
    modifies buf
    ensures InodeAt(buf[..], off) == ino
    ensures forall i :: 0 <= i < buf.Length && !(off <= i < off + 4) ==> buf[i] == old(buf[i])
  {
    var hi := ino / 256;
    var hi2 := hi / 256;
    buf[off], buf[off + 1], buf[off + 2], buf[off + 3] := ino % 256, hi % 256, hi2 % 256, hi2 / 256;
    assert ino == ino % 256 + 0x100 * (hi % 256 + 0x100 * (hi2 % 256 + 0x100 * (hi2 / 256)));
  }

  // ---- salvage_directory in place ----

  method SalvageDirectory(buf: array<byte>, off: nat, prev: Option<nat>, maxInode: nat)
    returns (off': nat)
    requires AtBadEntry(buf[..], off, prev)
    modifies buf
    ensures var act := Choose(old(buf[..]), off, prev, maxInode);
            && Applicable(old(buf[..]), off, prev, act)
            && buf[..] == Apply(old(buf[..]), off, prev, act)
            && off' == Moved(off, act)
    ensures Salvages(old(buf[..]), off, prev, maxInode, buf[..], off')
  {
    hide Scanned, Entry, Apply, Salvages, Span, Rank;
    ghost var b := buf[..];
    ChooseFacts(b, off, prev, maxInode);
    SalvageIs(b, off, prev, maxInode);
    var n := buf.Length;
    var nameLen, rec := 0, n - off;
    if n - off >= 8 {
      nameLen, rec := NameLen(buf[..], off), RecLen(buf[..], off);
    }
    var left: int := n - off - rec;
    if left >= DirRecLen(1) && rec == 8 {
      CoverInPlace(buf, off, prev);
      return off;
    }
    if left < 0 && rec + left > 8 && DirRecLen(nameLen) <= rec + left {
      var len := NameLength(buf, off + 8, nameLen);
      if InodeAt(buf[..], off) <= maxInode && len == nameLen {
        TrimInPlace(buf, off, prev);
        return off;
      }
    }
    if prev.Some? && rec > 0 && rec % 4 == 0 && off + rec <= n {
      AbsorbInPlace(buf, off, prev.value, rec);
      return off + rec;
    }
    if prev.Some? {
      AbsorbInPlace(buf, off, prev.value, n - off);
      return n;
    }
    ClearInPlace(buf, off, prev);
    return off;
  }

  /** The entry that overruns the block ends with it. */
  method TrimInPlace(buf: array<byte>, off: nat, ghost prev: Option<nat>)
    requires off + 8 <= buf.Length < 65536
    modifies buf
    ensures buf[..] == Apply(old(buf[..]), off, prev, Trim)
  {
    SetRec(buf, off, buf.Length - off);
  }

  /** The entry at `p` absorbs the next bytes. */
  method AbsorbInPlace(buf: array<byte>, off: nat, p: nat, bytes: nat)
    requires off <= buf.Length < 65536 && p + 8 <= buf.Length
    modifies buf
    ensures buf[..] == Apply(old(buf[..]), off, Some(p), Absorb(bytes))
  {
    SetRec(buf, p, RecLen(buf[..], p) + bytes);
  }

  /** The memmove and the memset over an 8-byte hole. */
  method CoverInPlace(buf: array<byte>, off: nat, ghost prev: Option<nat>)
    requires off + 8 <= buf.Length < 65536
    modifies buf
    ensures buf[..] == Apply(old(buf[..]), off, prev, Cover)
  {
    var left := buf.Length - off - 8;
    forall i | 0 <= i < left {
      buf[off + i] := buf[off + 8 + i];
    }
    forall i | 0 <= i < 8 {
      buf[off + left + i] := 0;
    }
  }

  method ClearInPlace(buf: array<byte>, off: nat, ghost prev: Option<nat>)
    requires off + 8 <= buf.Length < 65536
    modifies buf
    ensures buf[..] == Apply(old(buf[..]), off, prev, Clear)
  {
    SetRec(buf, off, buf.Length - off);
    buf[off + 6], buf[off + 7] := 0, 0;
    buf[off], buf[off + 1], buf[off + 2], buf[off + 3] := 0, 0, 0, 0;
  }

  /** strnlen */
  method NameLength(buf: array<byte>, start: nat, max: nat) returns (len: nat)
    requires start + max <= buf.Length
    ensures len == max <==> NoNul(buf[..], start, max)
  {
    len := 0;
    while len < max && buf[start + len] != 0
      invariant 0 <= len <= max
      invariant forall i :: start <= i < start + len ==> buf[i] != 0
    {
      len := len + 1;
    }
    assert len < max ==> buf[..][start + len] == 0;
  }

  // ---- '.' and '..' ----

  /** Inode, name length and type of an entry; the record length stays. */
  method PutHeader(buf: array<byte>, off: nat, ino: nat, nameLen: byte, fileType: byte)
    requires off + 8 <= buf.Length && ino < 0x1_0000_0000
    modifies buf
    ensures InodeAt(buf[..], off) == ino && NameLen(buf[..], off) == nameLen
    ensures RecLen(buf[..], off) == RecLen(old(buf[..]), off)
    ensures OnlyWithin(old(buf[..]), buf[..], off, off + 8)
  {
    SetInode(buf, off, ino);
    buf[off + 6], buf[off + 7] := nameLen, fileType;
  }

  /** What follows the first 12 bytes of the entry: as it was if its name looks like '..' already, else
      an unused entry over the rest. */
  predicate SplitOff(b: seq<byte>, b': seq<byte>, off: nat)
    requires Entry(b, off) && RecLen(b, off) > 24 && |b'| == |b|
  {
    if b[off + 20] == 46 && b[off + 21] == 46 && b[off + 22] == 0 then
      SameBytes(b, b', off + 12, off + RecLen(b, off))
    else
      && Entry(b', off + 12) && InodeAt(b', off + 12) == 0 && NameLen(b', off + 12) == 0
      && RecLen(b', off + 12) == RecLen(b, off) - 12
      && SameBytes(b, b', off + 20, off + RecLen(b, off))
  }

  /** Cut the first entry to 12 bytes; what follows becomes an unused entry unless it looks
      like '..' already. */
  method SplitDot(buf: array<byte>, off: nat, fileType: byte)
    requires BlockOk(buf[..]) && Entry(buf[..], off) && RecLen(buf[..], off) > 24
    requires NameLen(buf[..], off) == 1
    modifies buf
    ensures Entry(buf[..], off) && RecLen(buf[..], off) == 12
    ensures OnlyWithin(old(buf[..]), buf[..], off + 4, off + RecLen(old(buf[..]), off))
    ensures forall i :: off + 6 <= i < off + 12 ==> buf[i] == old(buf[i])
    ensures SplitOff(old(buf[..]), buf[..], off)
  {
    ghost var b := buf[..];
    var newLen := RecLen(buf[..], off) - 12;
    SetRecLenValue(b, off, 12);
    SetRec(buf, off, 12);
    ghost var cut := buf[..];
    if !LooksDotDot(buf[..], off + 12) {
      SetRec(buf, off + 12, newLen);
      ghost var put := buf[..];
      PutHeader(buf, off + 12, 0, 0, fileType);
      SplitDone(b, cut, put, buf[..], off);
    }
  }

  lemma {:induction false} SplitDone(b: seq<byte>, cut: seq<byte>, put: seq<byte>, b': seq<byte>, off: nat)
    requires BlockOk(b) && Entry(b, off) && RecLen(b, off) > 24 && !LooksDotDot(b, off + 12)
    requires cut == SetRecLen(b, off, 12) && put == SetRecLen(cut, off + 12, RecLen(b, off) - 12)
    requires OnlyWithin(put, b', off + 12, off + 20) && RecLen(b', off + 12) == RecLen(put, off + 12)
    requires InodeAt(b', off + 12) == 0 && NameLen(b', off + 12) == 0
    ensures SplitOff(b, b', off) && RecLen(b', off) == 12 && NameLen(b', off) == NameLen(b, off)
    ensures OnlyWithin(b, b', off + 4, off + RecLen(b, off))
    ensures forall i :: off + 6 <= i < off + 12 ==> b'[i] == b[i]
  {
    SetRecLenValue(b, off, 12);
    SetRecLenValue(cut, off + 12, RecLen(b, off) - 12);
  }

  /** The first half of check_dot: the name and the inode. */
  method MakeDot(buf: array<byte>, off: nat, ino: nat, fileType: byte)
    requires BlockOk(buf[..]) && Entry(buf[..], off) && 0 < ino < 0x1_0000_0000
    modifies buf
    ensures BlockOk(buf[..]) && Entry(buf[..], off)
    ensures IsDot(buf[..], off) && InodeAt(buf[..], off) == ino
    ensures RecLen(buf[..], off) == RecLen(old(buf[..]), off)
    ensures OnlyWithin(old(buf[..]), buf[..], off, off + 10)
    ensures IsDot(old(buf[..]), off) && InodeAt(old(buf[..]), off) == ino ==> buf[..] == old(buf[..])
  {
    if InodeAt(buf[..], off) == 0 || NameLen(buf[..], off) != 1 || buf[off + 8] != DOT
       || buf[off + 9] != 0
    {
      PutHeader(buf, off, ino, 1, fileType);
      ghost var b := buf[..];
      buf[off + 8], buf[off + 9] := DOT, 0;
      assert InodeAt(buf[..], off) == InodeAt(b, off) && RecLen(buf[..], off) == RecLen(b, off);
    }
    if InodeAt(buf[..], off) != ino {
      ghost var b := buf[..];
      SetInode(buf, off, ino);
      assert RecLen(buf[..], off) == RecLen(b, off);
    }
  }

  /** check_dot: the first entry becomes '.' of the directory itself, and an unused entry is split
      off it if it is long enough. */
  method CheckDot(buf: array<byte>, off: nat, ino: nat, fileType: byte)
    requires BlockOk(buf[..]) && Entry(buf[..], off) && 0 < ino < 0x1_0000_0000
    modifies buf
    ensures BlockOk(buf[..]) && Entry(buf[..], off)
    ensures IsDot(buf[..], off) && InodeAt(buf[..], off) == ino
    ensures RecLen(buf[..], off) ==
            if RecLen(old(buf[..]), off) > 24 then 12 else RecLen(old(buf[..]), off)
    ensures RecLen(old(buf[..]), off) > 24 ==> SplitOff(old(buf[..]), buf[..], off)
    ensures OnlyWithin(old(buf[..]), buf[..], off, off + RecLen(old(buf[..]), off))
    ensures IsDot(old(buf[..]), off) && InodeAt(old(buf[..]), off) == ino && RecLen(old(buf[..]), off) <= 24 ==>
              buf[..] == old(buf[..])
  {
    ghost var b := buf[..];
    MakeDot(buf, off, ino, fileType);
    if RecLen(buf[..], off) > 24 {
      ghost var made := buf[..];
      SplitDot(buf, off, fileType);
      SplitOffAfter(b, made, buf[..], off, ino);
    }
  }

  lemma {:induction false} SplitOffAfter(b: seq<byte>, made: seq<byte>, b': seq<byte>, off: nat, ino: nat)
    requires Entry(b, off) && Entry(made, off) && OnlyWithin(b, made, off, off + 10)
    requires RecLen(made, off) == RecLen(b, off) > 24 && |b'| == |made|
    requires IsDot(made, off) && InodeAt(made, off) == ino
    requires OnlyWithin(made, b', off + 4, off + RecLen(made, off)) && SplitOff(made, b', off)
    requires forall i :: off + 6 <= i < off + 12 ==> b'[i] == made[i]
    ensures SplitOff(b, b', off) && OnlyWithin(b, b', off, off + RecLen(b, off))
    ensures IsDot(b', off) && InodeAt(b', off) == ino
  {
    assert LooksDotDot(made, off + 12) <==> LooksDotDot(b, off + 12);
  }

  /** check_dotdot: the second entry becomes '..'; its inode is settled in pass 3. */
  method CheckDotDot(buf: array<byte>, off: nat, fileType: byte)
    requires BlockOk(buf[..]) && Entry(buf[..], off)
    modifies buf
    ensures BlockOk(buf[..]) && Entry(buf[..], off)
    ensures IsDotDot(buf[..], off) && InodeAt(buf[..], off) != 0
    ensures RecLen(buf[..], off) == RecLen(old(buf[..]), off)
    ensures OnlyWithin(old(buf[..]), buf[..], off, off + 11)
    ensures IsDotDot(old(buf[..]), off) && InodeAt(old(buf[..]), off) != 0 ==> buf[..] == old(buf[..])
  {
    if InodeAt(buf[..], off) == 0 || NameLen(buf[..], off) != 2 || buf[off + 8] != DOT
       || buf[off + 9] != DOT || buf[off + 10] != 0
    {
      PutHeader(buf, off, EXT2_ROOT_INO, 2, fileType);
      ghost var b := buf[..];
      buf[off + 8], buf[off + 9], buf[off + 10] := DOT, DOT, 0;
      assert InodeAt(buf[..], off) == InodeAt(b, off) && RecLen(buf[..], off) == RecLen(b, off);
    }
  }

  /** check_name: every '/' and NUL of the name becomes '.'. */
  method CheckName(buf: array<byte>, off: nat)
    requires BlockOk(buf[..]) && Entry(buf[..], off)
    modifies buf
    ensures BlockOk(buf[..]) && Entry(buf[..], off)
    ensures InodeAt(buf[..], off) == InodeAt(old(buf[..]), off)
    ensures NameLen(buf[..], off) == NameLen(old(buf[..]), off)
    ensures OnlyWithin(old(buf[..]), buf[..], off + 8, off + 8 + NameLen(old(buf[..]), off))
    ensures forall i :: off + 8 <= i < off + 8 + NameLen(old(buf[..]), off) ==>
              buf[i] == (if old(buf[i]) == SLASH || old(buf[i]) == 0 then DOT else old(buf[i]))
  {
    var n := NameLen(buf[..], off);
    ghost var b := buf[..];
    for k := 0 to n
      invariant forall i :: 0 <= i < buf.Length ==>
                  buf[i] == (if off + 8 <= i < off + 8 + k && (b[i] == SLASH || b[i] == 0) then DOT
                             else b[i])
    {
      if buf[off + 8 + k] == SLASH || buf[off + 8 + k] == 0 {
        buf[off + 8 + k] := DOT;
      }
    }
    KeptFields8(b, buf[..], off);
  }

  /** An entry whose first 8 bytes are as before is as valid as before. */
  lemma {:induction false} KeptFields8(b: seq<byte>, b': seq<byte>, off: nat)
    requires Entry(b, off) && SameBytes(b, b', off, off + 8)
    ensures Entry(b', off) && RecLen(b', off) == RecLen(b, off) && NameLen(b', off) == NameLen(b, off)
    ensures InodeAt(b', off) == InodeAt(b, off)
  {
  }

  // ---- The scan loop ----

  /** The checks on a valid entry, up to the label `next`. */
  method CheckEntry(buf: array<byte>, off: nat, ino: nat, dotState: nat, o: Oracle)
    requires BlockOk(buf[..]) && Entry(buf[..], off) && 0 < ino < 0x1_0000_0000
    modifies buf
    ensures LeftBy(old(buf[..]), buf[..], off, ino, dotState, o)
    ensures EntryHealthy(old(buf[..]), off, ino, dotState, o) ==> buf[..] == old(buf[..])
  {
    if dotState == 0 {
      CheckDot(buf, off, ino, o.fileType(off));
    } else if dotState == 1 {
      CheckDotDot(buf, off, o.fileType(off));
    } else if InodeAt(buf[..], off) == ino {
      ClearInode(buf, off);
      return;
    }
    if InodeAt(buf[..], off) == 0 {
      return;
    }
    if o.rejects(off) || ClearedByLooks(buf[..], off, dotState) {
      ClearInode(buf, off);
      return;
    }
    CleanEntry(buf, off, o.fileType(off));
    if dotState > 1 && o.relinks(off) {
      ClearInode(buf, off);
    }
  }

  /** check_filetype, then check_name. */
  method CleanEntry(buf: array<byte>, off: nat, fileType: byte)
    requires BlockOk(buf[..]) && Entry(buf[..], off) && NameLen(buf[..], off) > 0
    modifies buf
    ensures BlockOk(buf[..]) && Entry(buf[..], off) && CleanName(buf[..], off) && buf[off + 7] == fileType
    ensures InodeAt(buf[..], off) == InodeAt(old(buf[..]), off)
    ensures NameLen(buf[..], off) == NameLen(old(buf[..]), off)
    ensures OnlyWithin(old(buf[..]), buf[..], off + 7, off + 8 + NameLen(old(buf[..]), off))
    ensures forall i :: off + 8 <= i < off + 8 + NameLen(old(buf[..]), off) ==>
              buf[i] == (if old(buf[i]) == SLASH || old(buf[i]) == 0 then DOT else old(buf[i]))
    ensures CleanName(old(buf[..]), off) && old(buf[off + 7]) == fileType ==> buf[..] == old(buf[..])
  {
    ghost var b := buf[..];
    buf[off + 7] := fileType;
    KeptHeader(b, buf[..], off);
    CheckName(buf, off);
  }

  lemma {:induction false} KeptHeader(b: seq<byte>, b': seq<byte>, off: nat)
    requires Entry(b, off) && |b'| == |b|
    requires forall i :: off <= i < off + 7 ==> b'[i] == b[i]
    ensures Entry(b', off) && InodeAt(b', off) == InodeAt(b, off) && NameLen(b', off) == NameLen(b, off)
  {
  }

  method ClearInode(buf: array<byte>, off: nat)
    requires BlockOk(buf[..]) && Entry(buf[..], off)
    modifies buf
    ensures BlockOk(buf[..]) && Entry(buf[..], off) && InodeAt(buf[..], off) == 0
    ensures RecLen(buf[..], off) == RecLen(old(buf[..]), off) && NameLen(buf[..], off) == NameLen(old(buf[..]), off)
    ensures OnlyWithin(old(buf[..]), buf[..], off, off + 4)
  {
    ghost var b := buf[..];
    SetInode(buf, off, 0);
    assert RecLen(buf[..], off) == RecLen(b, off);
  }

  lemma {:induction false} FirstAccepted(b: seq<byte>, off: nat, prev: Option<nat>)
    requires Scanned(b, off, prev) && off > 0
    ensures Accepted(b, 0, off)
  {
    ChainAppend(b, 0, prev.value);
  }

  /** What the scan has established at `off`; with `dot` the first entry is '.' of `ino`. */
  ghost predicate ScanState(b: seq<byte>, off: nat, prev: Option<nat>, ino: nat, dot: bool) {
    && BlockOk(b) && Scanned(b, off, prev) && AllClean(b, off)
    && (off > 0 ==> Entry(b, 0) && (dot ==> DotOf(b, 0, ino)))
  }

  /** What a salvage gets closer to its end. */
  predicate Progress(b: seq<byte>, off: nat, b': seq<byte>, off': nat) {
    || off < off' <= |b|
    || (off' == off && Rank(b', off') < Rank(b, off))
    || (off' == off && Rank(b', off') <= Rank(b, off) && Span(b', off') < Span(b, off))
  }

  lemma {:induction false} SameDot(b: seq<byte>, b': seq<byte>, ino: nat)
    requires Entry(b, 0) && Entry(b', 0) && |b'| == |b| && SameEntry(b, b', 0) && DotOf(b, 0, ino)
    ensures DotOf(b', 0, ino)
  {
    assert b'[8..9][0] == b[8..9][0];
  }

  lemma {:induction false} SalvageState(b: seq<byte>, off: nat, prev: Option<nat>, maxInode: nat, ino: nat, dot: bool)
    requires ScanState(b, off, prev, ino, dot) && off < |b| && !Entry(b, off)
    ensures var act := Choose(b, off, prev, maxInode);
            && Applicable(b, off, prev, act)
            && AtBadEntry(b, off, prev)
            && var b', off' := Apply(b, off, prev, act), Moved(off, act);
               ScanState(b', off', prev, ino, dot) && Progress(b, off, b', off')
  {
    SalvageProgress(b, off, prev, maxInode);
    SalvageScanned(b, off, prev, maxInode);
    SalvageKeepsClean(b, off, prev, maxInode);
    if off > 0 {
      FirstAccepted(b, off, prev);
      SalvageKeepsEntry(b, off, prev, maxInode, 0);
      if dot {
        SameDot(b, Apply(b, off, prev, Choose(b, off, prev, maxInode)), ino);
      }
    } else {
      NothingAbsorbed(b, prev, maxInode);
    }
  }

  lemma {:induction false} NothingAbsorbed(b: seq<byte>, prev: Option<nat>, maxInode: nat)
    requires AtBadEntry(b, 0, prev)
    ensures Moved(0, Choose(b, 0, prev, maxInode)) == 0
  {
  }

  lemma {:induction false} AcceptState(b: seq<byte>, b': seq<byte>, off: nat, prev: Option<nat>, ino: nat, dot: bool)
    requires ScanState(b, off, prev, ino, dot) && BlockOk(b') && SameBytes(b, b', 0, off)
    requires Entry(b', off) && CleanIfUsed(b', off) && (off == 0 && dot ==> DotOf(b', 0, ino))
    ensures ScanState(b', off + RecLen(b', off), Some(off), ino, dot)
  {
    ScannedFrame(b, b', off, prev);
    AllCleanFrame(b, b', off);
    AcceptKeepsClean(b', off, prev);
    FirstAccepted(b', off + RecLen(b', off), Some(off));
    if off > 0 && dot {
      FirstAccepted(b, off, prev);
      assert DotOf(b', 0, ino);
    }
  }

  /** The checks on a valid entry, which becomes the previous one. */
  method AcceptEntry(buf: array<byte>, off: nat, prev: Option<nat>, ino: nat, dotState: nat,
                     ghost dot: bool, o: Oracle) returns (off': nat, prev': Option<nat>)
    requires ScanState(buf[..], off, prev, ino, dot) && Entry(buf[..], off) && 0 < ino < 0x1_0000_0000
    requires off == 0 && dot ==> dotState == 0 && !o.rejects(0)
    modifies buf
    ensures ScanState(buf[..], off', prev', ino, dot) && prev' == Some(off)
    ensures LeftBy(old(buf[..]), buf[..], off, ino, dotState, o)
    ensures off < off' == off + RecLen(buf[..], off) <= buf.Length && Scanned(buf[..], off', prev')
    ensures Healthy(old(buf[..]), off, ino, dotState, o) ==>
              buf[..] == old(buf[..]) && Healthy(buf[..], off', ino, dotState + 1, o)
  {
    ghost var b := buf[..];
    CheckEntry(buf, off, ino, dotState, o);
    AcceptState(b, buf[..], off, prev, ino, dot);
    prev' := Some(off);
    off' := off + RecLen(buf[..], off);
  }

  /** check_dir_block: whatever the bytes are, the scan ends, and the block is then a chain of
      valid entries that covers it exactly, in which every entry in use has a clean name; the
      first block of a directory starts with its '.' unless its own number was rejected.  A
      block with nothing to repair is left as it is.

      `met` are the valid entries that the scan met (Trace), which are exactly those of the block
      at the end, with the inode, type and name that the checks left them (Kept).  If there is a
      second entry in a first block it is '..'; and of the later ones exactly those are named '.'
      or '..' whose name became that when its characters were replaced, and none is in use as a
      link to the directory itself or to the root; each keeps its inode if it stays (StaysExact
      says on the bytes when), and else has none.  What is in use shows the type it should.

      Behind a stretch of valid entries the entry that is due is met: a valid one, one that
      overruns the block but whose name fits, the one behind a hole, or the one to which a bad
      entry leads on (Due). */
  method CheckBlock(buf: array<byte>, ino: nat, isFirst: bool, o: Oracle, maxInode: nat)
    returns (ghost met: seq<Met>)
    requires BlockOk(buf[..]) && 0 < ino < 0x1_0000_0000
    modifies buf
    ensures Healthy(old(buf[..]), 0, ino, if isFirst then 0 else 2, o) ==> buf[..] == old(buf[..])
    ensures Chain(buf[..], 0, buf.Length) && AllClean(buf[..], buf.Length)
    ensures Entry(buf[..], 0) && (isFirst && !o.rejects(0) ==> DotOf(buf[..], 0, ino))
    ensures Trace(old(buf[..]), met, ino, if isFirst then 0 else 2, o, maxInode)
    ensures EndsIn(Behind(old(buf[..]), met), buf[..], maxInode)
    ensures Kept(met, buf[..], buf.Length)
    ensures isFirst && |met| >= 2 ==> SecondIsDotDot(buf[..], met[1].off, o)
    ensures forall i :: (if isFirst then 2 else 0) <= i < |met| ==>
              (UsedDots(buf[..], met[i].off) <==> TurnsToDots(met[i], ino, o)) && LinkOk(buf[..], met[i].off, ino)
              && InodeKept(met[i], buf[..], ino, o)
    ensures forall i :: 0 <= i < |met| ==> TypeOk(buf[..], met[i].off, o)
    ensures forall off, q, at ::
              GoodUpTo(old(buf[..]), off, if isFirst then 0 else 2) && Due(old(buf[..]), off, maxInode, q, at) ==>
                IsMet(old(buf[..]), q, met, at)
  {
    hide Tracing, ScanState, LeftBy, Choose, Apply, Moved, Applicable, Span, Rank, Entry, Healthy, Kept, Trace;
    hide Behind, EndsIn, Chain, AllClean, UsedDots, TurnsToDots, SecondIsDotDot, DotOf, Scanned, RecLen;
    hide LinkOk, InodeKept, TypeOk, GoodUpTo, Due, IsMet, Salvages;
    ghost var b0, ds := buf[..], if isFirst then 0 else 2;
    var off, prev: Option<nat>, dotState := 0, None, if isFirst then 0 else 2;
    ghost var dot := isFirst && !o.rejects(0);
    ghost var healthy := Healthy(buf[..], 0, ino, dotState, o);
    met := [];
    ScanBegins(b0, ino, dot);
    TracingBegins(b0, ino, ds, o, maxInode);
    while off < buf.Length
      invariant off <= buf.Length && ScanState(buf[..], off, prev, ino, dot)
      invariant Tracing(b0, met, buf[..], off, prev, ino, ds, o, maxInode) && dotState == ds + |met|
      invariant off == 0 ==> met == []
      invariant healthy ==> buf[..] == b0 && Healthy(buf[..], off, ino, dotState, o)
      decreases buf.Length - off, Rank(buf[..], off), Span(buf[..], off)
    {
      if !Entry(buf[..], off) {
        HealthyEntry(buf[..], off, ino, dotState, o);
        SalvageState(buf[..], off, prev, maxInode, ino, dot);
        TracingSalvaged(b0, met, buf[..], off, prev, ino, ds, o, maxInode);
        off := SalvageDirectory(buf, off, prev, maxInode);
        continue;
      }
      ghost var b, at := buf[..], off;
      ghost var from := prev;
      off, prev := AcceptEntry(buf, off, prev, ino, dotState, dot, o);
      TracingChecked(b0, met, b, buf[..], at, from, ino, ds, o, maxInode);
      met := met + [Met(at, b, buf[..])];
      dotState := dotState + 1;
    }
    ScanEnds(buf[..], prev, ino, dot);
    TracingEnds(b0, met, buf[..], prev, ino, ds, o, maxInode);
  }

  lemma {:induction false} HealthyEntry(b: seq<byte>, off: nat, ino: nat, dotState: nat, o: Oracle)
    requires off < |b|
    ensures Healthy(b, off, ino, dotState, o) ==> Entry(b, off)
  {
  }

  lemma {:induction false} ScanBegins(b: seq<byte>, ino: nat, dot: bool)
    requires BlockOk(b)
    ensures ScanState(b, 0, None, ino, dot)
  {
    forall q: nat ensures !Accepted(b, q, 0) {
    }
  }

  lemma {:induction false} ScanEnds(b: seq<byte>, prev: Option<nat>, ino: nat, dot: bool)
    requires ScanState(b, |b|, prev, ino, dot)
    ensures Chain(b, 0, |b|) && AllClean(b, |b|)
    ensures Entry(b, 0) && (dot ==> DotOf(b, 0, ino))
  {
    ChainAppend(b, 0, prev.value);
  }
}
