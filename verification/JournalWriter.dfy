/** Writing a transaction into the journal and finding the journal's head again
    (debugfs/do_journal.c). */
module JournalWriter {
  import opened JournalFormat

  function NextId(tid: nat): nat {
    (tid + 1) % 0x1_0000_0000
  }

  datatype Err = Ok | InvalidArgument | BadBlockNum | NoSpace

  /** Entry `j` of the tags read is the one written for block `from + j` of the list, and the
      journal block that belongs to it holds that block of the input. */
  ghost predicate Written(c: Config, tagged: seq<(Tag, nat)>, log: Log, list: seq<nat>,
                          magic: seq<bool>, from: nat, hi: nat)
  {
    && |magic| == |list| && from + |tagged| <= |list|
    && forall j :: 0 <= j < |tagged| ==>
         && tagged[j].0.blocknr == Stored(c, list[from + j])
         && tagged[j].0.escape == magic[from + j]
         && tagged[j].1 < hi && tagged[j].1 in log && log[tagged[j].1] == Data(from + j)
  }

  /** The tags of one descriptor block that starts at `jdb`, with their data blocks. */
  ghost function Located(ts: seq<Tag>, jdb: nat): seq<(Tag, nat)> {
    seq(|ts|, j requires 0 <= j < |ts| => (ts[j], jdb + 1 + j))
  }

  /** Writing a closed descriptor in front of its data blocks makes the scan pass over both. */
  lemma {:induction false} CloseDescriptor(c: Config, log: Log, tid: nat, s: nat, jdb: nat, area: TagArea, ts: seq<Tag>)
    requires ScansOver(c, log, tid, s, jdb) && Placed(c, area, ts) && Closed(c, ts)
    ensures var log', e := log[jdb := Descriptor(tid, area)], jdb + 1 + |ts|;
            && ScansOver(c, log', tid, s, e)
            && Tagged(c, log', tid, s, e) == Tagged(c, log, tid, s, jdb) + Located(ts, jdb)
            && Revoked(c, log', tid, s, e) == Revoked(c, log, tid, s, jdb)
  {
    var log', e := log[jdb := Descriptor(tid, area)], jdb + 1 + |ts|;
    DescriptorRoundTrip(c, area, ts);
    ScansFrame(c, log, log', tid, s, jdb);
    assert ScansOver(c, log', tid, e, e);
    assert ScansOver(c, log', tid, jdb, e);
    ScansConcat(c, log', tid, s, jdb, e);
  }

  /** The same for a revoke block. */
  lemma {:induction false} CloseRevoke(c: Config, log: Log, tid: nat, s: nat, at: nat, entries: map<nat, nat>,
                    rs: seq<nat>)
    requires ScansOver(c, log, tid, s, at) && PlacedRevokes(c, entries, rs)
    ensures var log' := log[at := Revoke(tid, RevokePos(c, |rs|), entries)];
            && ScansOver(c, log', tid, s, at + 1)
            && Tagged(c, log', tid, s, at + 1) == Tagged(c, log, tid, s, at)
            && Revoked(c, log', tid, s, at + 1) == Revoked(c, log, tid, s, at) + rs
  {
    var b := Revoke(tid, RevokePos(c, |rs|), entries);
    var log' := log[at := b];
    RevokeRoundTrip(c, b, rs);
    ScansFrame(c, log, log', tid, s, at);
    assert ScansOver(c, log', tid, at + 1, at + 1);
    assert ScansOver(c, log', tid, at, at + 1);
    ScansConcat(c, log', tid, s, at, at + 1);
  }

  lemma {:induction false} WrittenMore(c: Config, log: Log, log': Log, list: seq<nat>, magic: seq<bool>, done: nat,
                    tagged: seq<(Tag, nat)>, ts: seq<Tag>, jdb: nat)
    requires Written(c, tagged, log, list, magic, 0, jdb) && |tagged| == done
    requires Written(c, Located(ts, jdb), log, list, magic, done, jdb + 1 + |ts|)
    requires forall k :: k != jdb ==> (k in log' <==> k in log) && (k in log ==> log'[k] == log[k])
    ensures Written(c, tagged + Located(ts, jdb), log', list, magic, 0, jdb + 1 + |ts|)
  {
    var all := tagged + Located(ts, jdb);
    forall j | 0 <= j < |all|
      ensures all[j].0.blocknr == Stored(c, list[j]) && all[j].0.escape == magic[j]
      ensures all[j].1 < jdb + 1 + |ts| && all[j].1 in log' && log'[all[j].1] == Data(j)
    {
      if j >= done {
        assert all[j] == Located(ts, jdb)[j - done];
      } else {
        assert all[j] == tagged[j];
      }
    }
  }

  class Journal {
    const c: Config
    const first: nat         // j_first
    const last: nat          // j_last
    const fsBlocks: nat      // blocks of the filesystem
    var log: Log
    var tail: nat            // j_tail
    var head: nat            // j_head
    var tailSequence: nat
    var transSequence: nat   // j_transaction_sequence

    constructor (c: Config, first: nat, last: nat, fsBlocks: nat)
      ensures this.c == c && this.first == first && this.last == last && this.fsBlocks == fsBlocks
      ensures log == map[]
    {
      this.c, this.first, this.last, this.fsBlocks := c, first, last, fsBlocks;
      log, tail, head, tailSequence, transSequence := map[], 0, 0, 0, 0;
    }

    function NextStart(): nat
      reads this
    {
      if tail == 0 then first else head
    }

    function NextTid(): nat
      reads this
    {
      if tail == 0 then tailSequence else transSequence
    }

    /** journal_write, where `blocks` is the number of blocks guessed for the transaction. */
    method Write(list: seq<nat>, magic: seq<bool>, revokes: seq<nat>, blocks: nat, commit: bool)
      returns (err: Err, ghost e: nat)
      requires Usable(c) && |magic| == |list|
      modifies this
      ensures old(NextStart()) == old(if tail == 0 then first else head)
      ensures old(NextTid()) == old(if tail == 0 then tailSequence else transSequence)
      ensures err == Ok <==>
                && old(NextStart()) + blocks <= last
                && (forall j :: 0 <= j < |list| ==> list[j] < fsBlocks)
                && (forall j :: 0 <= j < |revokes| ==> revokes[j] < fsBlocks)
      ensures err == Ok ==>
                && Holds(c, log, old(NextTid()), old(NextStart()), e, list, magic, revokes)
                && SameOutside(old(log), log, old(NextStart()), if commit then e + 1 else e)
      ensures err == Ok && (c.has64 || fsBlocks <= 0x1_0000_0000) ==>
                ReadsAs(c, log, old(NextTid()), old(NextStart()), e, list, revokes)
      ensures err == Ok && commit ==>
                && e in log && log[e] == Commit(old(NextTid()))
                && tail == (if old(tail) == 0 then old(NextStart()) else old(tail))
                && tailSequence == old(tailSequence)
                && head == old(NextStart()) + blocks + 1
                && transSequence == NextId(old(NextTid()))
      ensures err != Ok || !commit ==>
                tail == old(tail) && tailSequence == old(tailSequence) && head == old(head)
                && transSequence == old(transSequence)
    {
      e := 0;
      if !NextFits(NextStart(), blocks) {
        return NoSpace, e;
      }
      var t := new Transaction(this, blocks);
      err := t.AddBlocks(list, magic);
      if err != Ok {
        return;
      }
      ghost var log1, mid := log, t.block;
      err := t.AddRevokes(revokes);
      if err != Ok {
        return;
      }
      e := t.block;
      HoldsBoth(c, log1, log, t.tid, t.start, mid, e, list, magic, revokes);
      if commit {
        HoldsFrame(c, log, log[e := Commit(t.tid)], t.tid, t.start, e, list, magic, revokes);
        err := t.CommitTrans();
      }
      if c.has64 || fsBlocks <= 0x1_0000_0000 {
        InList(list, revokes, fsBlocks);
        HoldsExactly(c, log, t.tid, t.start, e, list, magic, revokes, fsBlocks);
      }
      t.Close();
    }

    predicate NextFits(start: nat, blocks: nat) {
      start + blocks <= last
    }

    predicate AllBelow(list: seq<nat>) {
      forall j :: 0 <= j < |list| ==> list[j] < fsBlocks
    }
  }

  class Transaction {
    const journal: Journal
    const tid: nat
    const start: nat
    const end: nat
    var block: nat
    var isOpen: bool
    var committed: bool

    /** The transaction that journal_open_trans sets up: at the first block of a clean journal,
        else at its head. */
    constructor (journal: Journal, blocks: nat)
      ensures this.journal == journal && isOpen && !committed
      ensures start == journal.NextStart() && tid == journal.NextTid()
      ensures block == start && end == start + blocks
    {
      this.journal := journal;
      var at := journal.NextStart();
      tid, start, end, block := journal.NextTid(), at, at + blocks, at;
      isOpen, committed := true, false;
    }

    /** journal_add_blocks_to_trans.  A scan passes over what was written exactly, and the tags
        it reads, with the data blocks behind them, are the list in order. */
    method AddBlocks(list: seq<nat>, magic: seq<bool>) returns (err: Err)
      requires Usable(journal.c) && |magic| == |list|
      modifies this`block, journal`log
      ensures SameOutside(old(journal.log), journal.log, old(block), block)
      ensures !isOpen || committed ==> err == InvalidArgument && block == old(block)
      ensures isOpen && !committed ==>
                (err == Ok <==> journal.AllBelow(list))
      ensures err == Ok ==> Listed(journal.c, journal.log, tid, old(block), block, list, magic)
    {
      if committed || !isOpen {
        return InvalidArgument;
      }
      if |list| == 0 {
        return Ok;
      }
      err := WriteTags(list, magic);
    }

    /** The tag loop and the last descriptor. */
    method WriteTags(list: seq<nat>, magic: seq<bool>) returns (err: Err)
      requires Usable(journal.c) && |magic| == |list| > 0
      modifies this`block, journal`log
      ensures SameOutside(old(journal.log), journal.log, old(block), block)
      ensures err in {Ok, BadBlockNum}
      ensures err == Ok <==> journal.AllBelow(list)
      ensures err == Ok ==> Listed(journal.c, journal.log, tid, old(block), block, list, magic)
    {
      ghost var log0, ts := journal.log, [];
      var w;
      err, w, ts := TagLoop(list, magic);
      if err == Ok {
        FinishTags(journal.c, log0, journal.log, tid, block, w, ts, list, magic);
        if w.off != JOURNAL_HEADER {
          journal.log := journal.log[w.jdb := Descriptor(tid, w.area)];
        }
      }
      block := w.curr;
    }

    method TagLoop(list: seq<nat>, magic: seq<bool>)
      returns (err: Err, w: Writing, ghost ts: seq<Tag>)
      requires Usable(journal.c) && |magic| == |list| > 0
      modifies journal`log
      ensures err in {Ok, BadBlockNum} && SameOutside(old(journal.log), journal.log, block, w.curr)
      ensures err == Ok <==> journal.AllBelow(list)
      ensures err == Ok ==> ts != []
      ensures err == Ok ==> Progress(journal.c, old(journal.log), journal.log, tid, block, w, ts, list,
                                     magic, |list|)
    {
      hide Progress, SameOutside, TagBytes, Limit;
      w, ts := Writing(block, block + 1, JOURNAL_HEADER, map[]), [];
      ProgressBegins(journal.c, journal.log, tid, block, list, magic);
      for i := 0 to |list|
        invariant Progress(journal.c, old(journal.log), journal.log, tid, block, w, ts, list, magic, i)
        invariant i > 0 ==> ts != []
        invariant forall j :: 0 <= j < i ==> list[j] < journal.fsBlocks
      {
        err, w, ts := TagStep(old(journal.log), w, ts, list, magic, i);
        if err != Ok {
          return;
        }
      }
      ProgressOutside(journal.c, old(journal.log), journal.log, tid, block, w, ts, list, magic, |list|);
      err := Ok;
    }

    method TagStep(ghost log0: Log, w: Writing, ghost ts: seq<Tag>, list: seq<nat>, magic: seq<bool>,
                   i: nat) returns (err: Err, w': Writing, ghost ts': seq<Tag>)
      requires Progress(journal.c, log0, journal.log, tid, block, w, ts, list, magic, i)
      requires Usable(journal.c) && i < |list|
      modifies journal`log
      ensures err == if list[i] < journal.fsBlocks then Ok else BadBlockNum
      ensures SameOutside(log0, journal.log, block, w'.curr)
      ensures err == Ok ==>
                ts' != [] && Progress(journal.c, log0, journal.log, tid, block, w', ts', list, magic, i + 1)
    {
      w', ts' := FlushIfFull(log0, w, ts, list, magic, i);
      if list[i] >= journal.fsBlocks {
        return BadBlockNum, w', ts';
      }
      w', ts' := WriteOne(log0, w', ts', list, magic, i);
      err := Ok;
    }

    /** journal_add_revoke_to_trans.  A scan passes over the blocks written, which read back as
        the list. */
    method AddRevokes(list: seq<nat>) returns (err: Err)
      requires Usable(journal.c)
      modifies this`block, journal`log
      ensures SameOutside(old(journal.log), journal.log, old(block), block)
      ensures !isOpen || committed ==> err == InvalidArgument && block == old(block)
      ensures isOpen && !committed ==> (err == Ok <==> journal.AllBelow(list))
      ensures err == Ok ==> RevokesListed(journal.c, journal.log, tid, old(block), block, list)
    {
      if committed || !isOpen {
        return InvalidArgument;
      }
      if |list| == 0 {
        return Ok;
      }
      hide Stored, Revoking, RevokesListed, RevokeBytes, Limit;
      RevokingBegins(journal.c, journal.log, tid, block);
      var c := journal.c;
      var curr, off := block, REVOKE_HEADER;
      var entries: map<nat, nat> := map[];
      ghost var rs: seq<nat> := [];
      for i := 0 to |list|
        invariant block == old(block) && off == RevokePos(c, |rs|)
        invariant SameOutside(old(journal.log), journal.log, block, curr)
        invariant Revoking(c, journal.log, tid, block, curr, entries, rs, list[..i])
        invariant forall j :: 0 <= j < i ==> list[j] < journal.fsBlocks
      {
        if off + RevokeBytes(c) > Limit(c) {
          FlushRevokes(c, journal.log, tid, block, curr, entries, rs, list[..i]);
          journal.log := journal.log[curr := Revoke(tid, off, entries)];
          off, curr, rs := REVOKE_HEADER, curr + 1, [];
        }
        if list[i] >= journal.fsBlocks {
          block := curr;
          return BadBlockNum;
        }
        PutRevoke(c, journal.log, tid, block, curr, entries, rs, list[..i], list[i]);
        assert list[..i] + [list[i]] == list[..i + 1];
        entries := entries[off := Stored(c, list[i])];
        rs := rs + [Stored(c, list[i])];
        off := off + RevokeBytes(c);
      }
      assert list[..|list|] == list;
      FlushRevokes(c, journal.log, tid, block, curr, entries, rs, list);
      journal.log := journal.log[curr := Revoke(tid, off, entries)];
      block := curr + 1;
      return Ok;
    }

    /** journal_commit_trans */
    method CommitTrans() returns (err: Err)
      modifies this, journal`log
      ensures old(committed) || !old(isOpen) ==>
                err == InvalidArgument && journal.log == old(journal.log) && block == old(block)
                && committed == old(committed)
      ensures old(isOpen) && !old(committed) ==>
                err == Ok && journal.log == old(journal.log)[old(block) := Commit(tid)]
                && block == old(block) + 1 && committed && !isOpen
    {
      if committed || !isOpen {
        return InvalidArgument;
      }
      journal.log := journal.log[block := Commit(tid)];
      committed, isOpen := true, false;
      block := block + 1;
      return Ok;
    }

    /** journal_close_trans */
    method Close()
      modifies journal
      ensures journal.log == old(journal.log)
      ensures !committed ==> unchanged(journal)
      ensures committed ==>
                && journal.tail == (if old(journal.tail) == 0 then start else old(journal.tail))
                && journal.tailSequence == (if old(journal.tail) == 0 then tid else old(journal.tailSequence))
                && journal.head == end + 1 && journal.transSequence == NextId(tid)
    {
      if !committed {
        return;
      }
      if journal.tail == 0 {
        journal.tailSequence, journal.tail := tid, start;
      }
      journal.head, journal.transSequence := end + 1, NextId(tid);
    }

    /** A descriptor without room for one more tag is written out and a new one begun. */
    method FlushIfFull(ghost log0: Log, w: Writing, ghost ts: seq<Tag>, list: seq<nat>,
                       magic: seq<bool>, i: nat) returns (w': Writing, ghost ts': seq<Tag>)
      requires Progress(journal.c, log0, journal.log, tid, block, w, ts, list, magic, i)
      requires Usable(journal.c) && i < |list|
      modifies journal`log
      ensures Progress(journal.c, log0, journal.log, tid, block, w', ts', list, magic, i)
      ensures w'.off + TagBytes(journal.c) <= Limit(journal.c)
    {
      w', ts' := w, ts;
      if w.off + TagBytes(journal.c) > Limit(journal.c) {
        FlushTags(journal.c, log0, journal.log, tid, block, w, ts, list, magic, i);
        journal.log := journal.log[w.jdb := Descriptor(tid, w.area)];
        w', ts' := Writing(w.curr, w.curr + 1, JOURNAL_HEADER, w.area), [];
      }
    }

    /** The tag of list entry `i` and the block behind it. */
    method WriteOne(ghost log0: Log, w: Writing, ghost ts: seq<Tag>, list: seq<nat>,
                    magic: seq<bool>, i: nat) returns (w': Writing, ghost ts': seq<Tag>)
      requires Progress(journal.c, log0, journal.log, tid, block, w, ts, list, magic, i)
      requires i < |list| && w.off + TagBytes(journal.c) <= Limit(journal.c)
      modifies journal`log
      ensures Progress(journal.c, log0, journal.log, tid, block, w', ts', list, magic, i + 1)
      ensures ts' != []
    {
      var c := journal.c;
      var t := Tag(Stored(c, list[i]), w.off != JOURNAL_HEADER, i == |list| - 1, magic[i]);
      PutTag(c, log0, journal.log, tid, block, w, t, ts, list, magic, i);
      journal.log := journal.log[w.curr := Data(i)];
      w' := NextTag(c, w, t);
      ts' := ts + [t];
    }
  }

  /** The local variables of the tag loop: the block of the open descriptor, the next block to
      write, the offset of the next tag and the descriptor buffer. */
  datatype Writing = Writing(jdb: nat, curr: nat, off: nat, area: TagArea)

  function NextTag(c: Config, w: Writing, t: Tag): Writing {
    Writing(w.jdb, w.curr + 1,
            w.off + TagBytes(c) + if w.off == JOURNAL_HEADER then UUID_GAP else 0,
            w.area[w.off := t])
  }

  /** Outside the journal blocks from `s` up to `e` nothing changed. */
  ghost predicate SameOutside(a: Log, b: Log, s: nat, e: nat) {
    s <= e && forall k :: !(s <= k < e) ==> (k in b <==> k in a) && (k in a ==> b[k] == a[k])
  }

  /** A scan from `s` comes out at `e`, having read the list, in order, and no revokes. */
  ghost predicate Listed(c: Config, log: Log, tid: nat, s: nat, e: nat, list: seq<nat>,
                         magic: seq<bool>)
  {
    && ScansOver(c, log, tid, s, e)
    && |Tagged(c, log, tid, s, e)| == |list|
    && Written(c, Tagged(c, log, tid, s, e), log, list, magic, 0, e)
    && Revoked(c, log, tid, s, e) == []
  }

  function StoredAll(c: Config, list: seq<nat>): seq<nat> {
    seq(|list|, j requires 0 <= j < |list| => Stored(c, list[j]))
  }

  /** A scan from `s` comes out at `e`, having read the revokes, in order, and no tags. */
  ghost predicate RevokesListed(c: Config, log: Log, tid: nat, s: nat, e: nat, list: seq<nat>) {
    && ScansOver(c, log, tid, s, e)
    && Tagged(c, log, tid, s, e) == []
    && Revoked(c, log, tid, s, e) == StoredAll(c, list)
  }

  /** A scan from `s` comes out at `e`, having read both lists. */
  ghost predicate Holds(c: Config, log: Log, tid: nat, s: nat, e: nat, list: seq<nat>,
                        magic: seq<bool>, revokes: seq<nat>)
  {
    && ScansOver(c, log, tid, s, e)
    && |Tagged(c, log, tid, s, e)| == |list|
    && Written(c, Tagged(c, log, tid, s, e), log, list, magic, 0, e)
    && Revoked(c, log, tid, s, e) == StoredAll(c, revokes)
  }

  /** A scan reads the block numbers of the list and of the revokes, as they are. */
  ghost predicate ReadsAs(c: Config, log: Log, tid: nat, s: nat, e: nat, list: seq<nat>, revokes: seq<nat>) {
    && ScansOver(c, log, tid, s, e)
    && |Tagged(c, log, tid, s, e)| == |list|
    && (forall j :: 0 <= j < |list| ==> Tagged(c, log, tid, s, e)[j].0.blocknr == list[j])
    && Revoked(c, log, tid, s, e) == revokes
  }

  lemma {:induction false} InList(list: seq<nat>, revokes: seq<nat>, limit: nat)
    requires forall j :: 0 <= j < |list| ==> list[j] < limit
    requires forall j :: 0 <= j < |revokes| ==> revokes[j] < limit
    ensures forall b :: b in list || b in revokes ==> b < limit
  {
  }

  /** What is held is read as it is if the numbers fit what the journal stores. */
  lemma {:induction false} HoldsExactly(c: Config, log: Log, tid: nat, s: nat, e: nat, list: seq<nat>,
                                        magic: seq<bool>, revokes: seq<nat>, limit: nat)
    requires Holds(c, log, tid, s, e, list, magic, revokes)
    requires forall b :: b in list || b in revokes ==> b < limit
    requires c.has64 || limit <= 0x1_0000_0000
    ensures ReadsAs(c, log, tid, s, e, list, revokes)
  {
    forall j | 0 <= j < |list| ensures Stored(c, list[j]) == list[j] {
      assert list[j] in list;
    }
    forall j | 0 <= j < |revokes| ensures StoredAll(c, revokes)[j] == revokes[j] {
      assert revokes[j] in revokes;
    }
  }

  lemma {:induction false} HoldsBoth(c: Config, log1: Log, log: Log, tid: nat, s: nat, mid: nat, e: nat, list: seq<nat>,
                  magic: seq<bool>, revokes: seq<nat>)
    requires Listed(c, log1, tid, s, mid, list, magic) && SameOutside(log1, log, mid, e)
    requires RevokesListed(c, log, tid, mid, e, revokes)
    ensures Holds(c, log, tid, s, e, list, magic, revokes)
  {
    ScansFrame(c, log1, log, tid, s, mid);
    ScansConcat(c, log, tid, s, mid, e);
  }

  lemma {:induction false} HoldsFrame(c: Config, a: Log, b: Log, tid: nat, s: nat, e: nat, list: seq<nat>,
                   magic: seq<bool>, revokes: seq<nat>)
    requires Holds(c, a, tid, s, e, list, magic, revokes)
    requires forall k :: k < e ==> (k in b <==> k in a) && (k in a ==> b[k] == a[k])
    ensures Holds(c, b, tid, s, e, list, magic, revokes)
  {
    ScansFrame(c, a, b, tid, s, e);
  }

  /** The state of the revoke loop: what a scan reads up to `curr`, and then `rs` in the buffer,
      is the part of the list done. */
  ghost predicate Revoking(c: Config, log: Log, tid: nat, s: nat, curr: nat, entries: map<nat, nat>,
                           rs: seq<nat>, done: seq<nat>)
  {
    && ScansOver(c, log, tid, s, curr)
    && Tagged(c, log, tid, s, curr) == []
    && Revoked(c, log, tid, s, curr) + rs == StoredAll(c, done)
    && PlacedRevokes(c, entries, rs)
  }

  lemma {:induction false} RevokingBegins(c: Config, log: Log, tid: nat, s: nat)
    requires Usable(c)
    ensures Revoking(c, log, tid, s, s, map[], [], [])
  {
  }

  lemma {:induction false} FlushRevokes(c: Config, log: Log, tid: nat, s: nat, curr: nat, entries: map<nat, nat>,
                     rs: seq<nat>, done: seq<nat>)
    requires Revoking(c, log, tid, s, curr, entries, rs, done)
    requires Usable(c)
    ensures var log' := log[curr := Revoke(tid, RevokePos(c, |rs|), entries)];
            && Revoking(c, log', tid, s, curr + 1, entries, [], done)
            && RevokesListed(c, log', tid, s, curr + 1, done)
  {
    CloseRevoke(c, log, tid, s, curr, entries, rs);
  }

  lemma {:induction false} PutRevoke(c: Config, log: Log, tid: nat, s: nat, curr: nat, entries: map<nat, nat>,
                  rs: seq<nat>, done: seq<nat>, r: nat)
    requires Revoking(c, log, tid, s, curr, entries, rs, done)
    requires RevokePos(c, |rs|) + RevokeBytes(c) <= Limit(c)
    ensures Revoking(c, log, tid, s, curr, entries[RevokePos(c, |rs|) := Stored(c, r)],
                     rs + [Stored(c, r)], done + [r])
    ensures RevokePos(c, |rs + [Stored(c, r)]|) == RevokePos(c, |rs|) + RevokeBytes(c)
  {
    PlaceMoreRevokes(c, entries, rs, Stored(c, r));
    assert StoredAll(c, done + [r]) == StoredAll(c, done) + [Stored(c, r)];
    assert Revoked(c, log, tid, s, curr) + (rs + [Stored(c, r)])
        == Revoked(c, log, tid, s, curr) + rs + [Stored(c, r)];
  }

  /** The state of the tag loop at list entry `i`: a scan passes over the closed part up to the
      open descriptor at `jdb`, whose tags so far are `ts`. */
  ghost predicate Adding(c: Config, log: Log, tid: nat, s: nat, jdb: nat, area: TagArea,
                         ts: seq<Tag>, list: seq<nat>, magic: seq<bool>, i: nat)
  {
    && |magic| == |list| && |ts| <= i <= |list| && s <= jdb
    && Placed(c, area, ts)
    && (forall j :: 0 <= j < |ts| ==> (ts[j].last <==> i - |ts| + j == |list| - 1))
    && ScansOver(c, log, tid, s, jdb)
    && |Tagged(c, log, tid, s, jdb)| == i - |ts|
    && Written(c, Tagged(c, log, tid, s, jdb), log, list, magic, 0, jdb)
    && Revoked(c, log, tid, s, jdb) == []
    && Written(c, Located(ts, jdb), log, list, magic, i - |ts|, jdb + 1 + |ts|)
  }

  /** What the tag loop keeps: the state above, nothing changed outside, and the offset that
      belongs to the tags in the open descriptor. */
  ghost predicate Progress(c: Config, log0: Log, log: Log, tid: nat, s: nat, w: Writing, ts: seq<Tag>,
                           list: seq<nat>, magic: seq<bool>, i: nat)
  {
    && SameOutside(log0, log, s, w.curr)
    && Adding(c, log, tid, s, w.jdb, w.area, ts, list, magic, i)
    && w.curr == w.jdb + 1 + |ts| && w.off == Pos(c, |ts|)
  }

  lemma {:induction false} ProgressBegins(c: Config, log: Log, tid: nat, s: nat, list: seq<nat>, magic: seq<bool>)
    requires Usable(c) && |magic| == |list|
    ensures Progress(c, log, log, tid, s, Writing(s, s + 1, JOURNAL_HEADER, map[]), [], list, magic, 0)
  {
  }

  lemma {:induction false} ProgressOutside(c: Config, log0: Log, log: Log, tid: nat, s: nat, w: Writing, ts: seq<Tag>,
                                           list: seq<nat>, magic: seq<bool>, i: nat)
    requires Progress(c, log0, log, tid, s, w, ts, list, magic, i)
    ensures SameOutside(log0, log, s, w.curr)
  {
  }

  /** The descriptor is written out, because it is full or the list is at its end. */
  lemma {:induction false} FlushTags(c: Config, log0: Log, log: Log, tid: nat, s: nat, w: Writing, ts: seq<Tag>,
                  list: seq<nat>, magic: seq<bool>, i: nat)
    requires Progress(c, log0, log, tid, s, w, ts, list, magic, i) && ts != []
    requires Pos(c, |ts|) + TagBytes(c) > Limit(c) || i == |list|
    ensures var log' := log[w.jdb := Descriptor(tid, w.area)];
            && Adding(c, log', tid, s, w.curr, w.area, [], list, magic, i)
            && SameOutside(log0, log', s, w.curr)
  {
    hide ScansOver, Tagged, Revoked, Usable;
    var log' := log[w.jdb := Descriptor(tid, w.area)];
    CloseDescriptor(c, log, tid, s, w.jdb, w.area, ts);
    WrittenMore(c, log, log', list, magic, i - |ts|, Tagged(c, log, tid, s, w.jdb), ts, w.jdb);
  }

  lemma {:induction false} FinishTags(c: Config, log0: Log, log: Log, tid: nat, s: nat, w: Writing, ts: seq<Tag>,
                   list: seq<nat>, magic: seq<bool>)
    requires Progress(c, log0, log, tid, s, w, ts, list, magic, |list|) && ts != []
    ensures var log' := log[w.jdb := Descriptor(tid, w.area)];
            SameOutside(log0, log', s, w.curr) && Listed(c, log', tid, s, w.curr, list, magic)
    ensures w.off != JOURNAL_HEADER
  {
    FlushTags(c, log0, log, tid, s, w, ts, list, magic, |list|);
    PosIncreases(c, 0, |ts|);
  }

  /** One tag is placed and its data block written behind the descriptor. */
  lemma {:induction false} PutTag(c: Config, log0: Log, log: Log, tid: nat, s: nat, w: Writing, t: Tag, ts: seq<Tag>,
               list: seq<nat>, magic: seq<bool>, i: nat)
    requires Progress(c, log0, log, tid, s, w, ts, list, magic, i) && i < |list|
    requires w.off + TagBytes(c) <= Limit(c)
    requires t == Tag(Stored(c, list[i]), w.off != JOURNAL_HEADER, i == |list| - 1, magic[i])
    ensures Progress(c, log0, log[w.curr := Data(i)], tid, s, NextTag(c, w, t), ts + [t], list, magic,
                     i + 1)
  {
    hide Adding, Stored, TagBytes, Limit;
    if ts != [] { PosIncreases(c, 0, |ts|); }
    PutAdding(c, log, tid, s, w.jdb, w.area, w.off, t, ts, list, magic, i);
  }

  lemma {:induction false} PutAdding(c: Config, log: Log, tid: nat, s: nat, jdb: nat, area: TagArea, off: nat, t: Tag,
                  ts: seq<Tag>, list: seq<nat>, magic: seq<bool>, i: nat)
    requires Adding(c, log, tid, s, jdb, area, ts, list, magic, i) && i < |list|
    requires off == Pos(c, |ts|) && off + TagBytes(c) <= Limit(c)
    requires t == Tag(Stored(c, list[i]), ts != [], i == |list| - 1, magic[i])
    ensures Adding(c, log[jdb + 1 + |ts| := Data(i)], tid, s, jdb, area[off := t], ts + [t], list,
                   magic, i + 1)
  {
    var log' := log[jdb + 1 + |ts| := Data(i)];
    PlaceMore(c, area, ts, t);
    ScansFrame(c, log, log', tid, s, jdb);
    WrittenOne(c, log, list, magic, jdb, ts, t, i);
  }

  lemma {:induction false} WrittenOne(c: Config, log: Log, list: seq<nat>, magic: seq<bool>, jdb: nat, ts: seq<Tag>,
                   t: Tag, i: nat)
    requires |ts| <= i < |list| == |magic|
    requires Written(c, Located(ts, jdb), log, list, magic, i - |ts|, jdb + 1 + |ts|)
    requires t.blocknr == Stored(c, list[i]) && t.escape == magic[i]
    ensures Written(c, Located(ts + [t], jdb), log[jdb + 1 + |ts| := Data(i)], list, magic, i - |ts|,
                    jdb + 1 + |ts + [t]|)
  {
    var here, log' := Located(ts + [t], jdb), log[jdb + 1 + |ts| := Data(i)];
    forall j | 0 <= j < |here|
      ensures here[j].1 in log' && log'[here[j].1] == Data(i - |ts| + j)
      ensures here[j].0.blocknr == Stored(c, list[i - |ts| + j])
      ensures here[j].0.escape == magic[i - |ts| + j]
    {
      if j < |ts| { assert here[j] == Located(ts, jdb)[j]; }
    }
  }
}
