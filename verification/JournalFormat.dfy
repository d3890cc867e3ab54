/** Descriptor, revoke and commit blocks of the journal as their readers parse them
    (debugfs/do_journal.c, debugfs/logdump.c). */
module JournalFormat {

  /** What decides the layout: block size, 64-bit block numbers, and checksum version. */
  datatype Config = Config(blocksize: nat, has64: bool, csum2: bool, csum3: bool)

  const JOURNAL_HEADER: nat := 12
  const REVOKE_HEADER: nat := 16
  const UUID_GAP: nat := 16

  /** journal_tag_bytes, and journal_super_tag_bytes of the dumper. */
  function TagBytes(c: Config): nat {
    if c.csum3 then 16
    else
      var sz := 12 + if c.csum2 then 2 else 0;
      if c.has64 then sz else sz - 4
  }

  /** Where tags and revoke entries must end: before the checksum tail, if there is one. */
  function Limit(c: Config): int {
    c.blocksize - if c.csum2 || c.csum3 then 4 else 0
  }

  function RevokeBytes(c: Config): nat {
    if c.has64 then 8 else 4
  }

  /** A filesystem block number as the journal can store it. */
  function Stored(c: Config, b: nat): nat {
    if c.has64 then b else b % 0x1_0000_0000
  }

  predicate Usable(c: Config) {
    c.blocksize >= 1024
  }

  datatype Tag = Tag(blocknr: nat, sameUuid: bool, last: bool, escape: bool)

  /** The tags of a descriptor block by byte offset; bytes never written are zero. */
  type TagArea = map<nat, Tag>

  function TagAt(area: TagArea, off: nat): Tag {
    if off in area then area[off] else Tag(0, false, false, false)
  }

  /** The tags a reader finds from `off` on. */
  function ParseTags(c: Config, area: TagArea, off: nat): seq<Tag>
    decreases Limit(c) - off
  {
    if off + TagBytes(c) > Limit(c) then []
    else
      var t := TagAt(area, off);
      [t] + if t.last then []
            else ParseTags(c, area, off + TagBytes(c) + if t.sameUuid then 0 else UUID_GAP)
  }

  /** One block of the journal; `Data(i)` is a copy of the i-th block of the input file, and
      `Other` has a journal header of another type.  Blocks not in the log have no header. */
  datatype Block =
    | Descriptor(tid: nat, area: TagArea)
    | Revoke(tid: nat, rCount: nat, entries: map<nat, nat>)
    | Commit(tid: nat)
    | Other(tid: nat)
    | Data(index: nat)

  type Log = map<nat, Block>

  /** The entries of a revoke block from `off` up to its byte count. */
  function ParseRevoke(c: Config, b: Block, off: nat): seq<nat>
    requires b.Revoke?
    decreases c.blocksize - off
  {
    var max := if b.rCount > c.blocksize then c.blocksize else b.rCount;
    if off >= max then []
    else [if off in b.entries then b.entries[off] else 0] + ParseRevoke(c, b, off + RevokeBytes(c))
  }

  // ---- The readers ----

  /** count_tags */
  method CountTags(c: Config, area: TagArea) returns (nr: nat)
    ensures nr == |ParseTags(c, area, JOURNAL_HEADER)|
  {
    var off := JOURNAL_HEADER;
    nr := 0;
    while off + TagBytes(c) <= Limit(c)
      invariant nr + |ParseTags(c, area, off)| == |ParseTags(c, area, JOURNAL_HEADER)|
      decreases Limit(c) - off
    {
      var t := TagAt(area, off);
      nr := nr + 1;
      off := off + TagBytes(c);
      if !t.sameUuid {
        off := off + UUID_GAP;
      }
      if t.last {
        break;
      }
    }
  }

  /** What the dumper takes from a tag: only the low half of the block number. */
  function Low32(t: Tag): Tag {
    t.(blocknr := t.blocknr % 0x1_0000_0000)
  }

  function Dumped(ts: seq<Tag>): seq<Tag> {
    if ts == [] then [] else [Low32(ts[0])] + Dumped(ts[1..])
  }

  /** The loop of dump_descriptor_block. */
  method DumpDescriptor(c: Config, area: TagArea) returns (ts: seq<Tag>)
    ensures ts == Dumped(ParseTags(c, area, JOURNAL_HEADER))
  {
    ts := [];
    var off := JOURNAL_HEADER;
    while true
      invariant ts + Dumped(ParseTags(c, area, off)) == Dumped(ParseTags(c, area, JOURNAL_HEADER))
      decreases Limit(c) - off
    {
      var t := TagAt(area, off);
      TagStep(c, area, off, ts);
      off := off + TagBytes(c);
      if off > Limit(c) {
        return;
      }
      if !t.sameUuid {
        off := off + UUID_GAP;
      }
      ts := ts + [Low32(t)];
      if t.last {
        return;
      }
    }
  }

  lemma {:induction false} DumpedSame(ts: seq<Tag>)
    ensures Dumped(ts) == ts <==> forall t :: t in ts ==> t.blocknr < 0x1_0000_0000
  {
    if ts != [] {
      DumpedSame(ts[1..]);
      assert ts == [ts[0]] + ts[1..];
      assert Dumped(ts) == ts <==> Low32(ts[0]) == ts[0] && Dumped(ts[1..]) == ts[1..] by {
        assert Dumped(ts)[0] == Low32(ts[0]) && Dumped(ts)[1..] == Dumped(ts[1..]);
      }
    }
  }

  /** A dump of a descriptor shows the block numbers that were written exactly if they all fit
      into 32 bits. */
  lemma {:induction false} DumpShowsLow32(c: Config, area: TagArea, ts: seq<Tag>)
    requires Placed(c, area, ts) && Closed(c, ts)
    ensures Dumped(ParseTags(c, area, JOURNAL_HEADER)) == ts <==>
              forall t :: t in ts ==> t.blocknr < 0x1_0000_0000
  {
    DescriptorRoundTrip(c, area, ts);
    DumpedSame(ts);
  }

  /** The loop of dump_revoke_block. */
  method DumpRevoke(c: Config, b: Block) returns (rs: seq<nat>)
    requires b.Revoke?
    ensures rs == ParseRevoke(c, b, REVOKE_HEADER)
  {
    rs := [];
    var max := if b.rCount > c.blocksize then c.blocksize else b.rCount;
    var off := REVOKE_HEADER;
    while off < max
      invariant rs + ParseRevoke(c, b, off) == ParseRevoke(c, b, REVOKE_HEADER)
      decreases max - off
    {
      RevokeStep(c, b, off, rs);
      rs := rs + [if off in b.entries then b.entries[off] else 0];
      off := off + RevokeBytes(c);
    }
  }

  lemma {:induction false} TagStep(c: Config, area: TagArea, off: nat, ts: seq<Tag>)
    ensures var t := TagAt(area, off);
            ts + Dumped(ParseTags(c, area, off)) ==
            if off + TagBytes(c) > Limit(c) then ts
            else
              var more := ts + [Low32(t)];
              if t.last then more
              else more + Dumped(ParseTags(c, area, off + TagBytes(c) + if t.sameUuid then 0 else UUID_GAP))
  {
    var all := ParseTags(c, area, off);
    if all != [] {
      var t, next := TagAt(area, off), off + TagBytes(c) + if TagAt(area, off).sameUuid then 0 else UUID_GAP;
      assert all[0] == t && all[1..] == if t.last then [] else ParseTags(c, area, next);
    }
  }

  lemma {:induction false} RevokeStep(c: Config, b: Block, off: nat, rs: seq<nat>)
    requires b.Revoke? && off < c.blocksize && off < b.rCount
    ensures rs + ParseRevoke(c, b, off) ==
            (rs + [if off in b.entries then b.entries[off] else 0])
            + ParseRevoke(c, b, off + RevokeBytes(c))
  {
  }

  // ---- Tags written one behind the other are read back ----

  /** The offset of the k-th tag of a descriptor block. */
  function Pos(c: Config, k: nat): nat {
    if k == 0 then JOURNAL_HEADER
    else Pos(c, k - 1) + TagBytes(c) + if k == 1 then UUID_GAP else 0
  }

  /** The tags `ts` stand at their offsets, the first one followed by the UUID gap. */
  predicate Placed(c: Config, area: TagArea, ts: seq<Tag>) {
    forall j :: 0 <= j < |ts| ==>
      && Pos(c, j) in area && area[Pos(c, j)] == ts[j]
      && ts[j].sameUuid == (j > 0)
      && Pos(c, j) + TagBytes(c) <= Limit(c)
  }

  /** The block is full, or its last tag says so. */
  predicate Closed(c: Config, ts: seq<Tag>) {
    && (forall j :: 0 <= j < |ts| - 1 ==> !ts[j].last)
    && ts != []
    && (ts[|ts| - 1].last || Pos(c, |ts|) + TagBytes(c) > Limit(c))
  }

  lemma {:induction false} ParseOne(c: Config, area: TagArea, ts: seq<Tag>, j: nat)
    requires Placed(c, area, ts) && j < |ts|
    ensures ParseTags(c, area, Pos(c, j)) ==
            [ts[j]] + if ts[j].last then [] else ParseTags(c, area, Pos(c, j + 1))
  {
    hide TagBytes, Limit;
    assert TagAt(area, Pos(c, j)) == ts[j];
  }

  lemma {:induction false} ParseNone(c: Config, area: TagArea, off: nat)
    requires off + TagBytes(c) > Limit(c)
    ensures ParseTags(c, area, off) == []
  {
  }

  lemma {:induction false} PlacedParse(c: Config, area: TagArea, ts: seq<Tag>, j: nat)
    requires Placed(c, area, ts) && Closed(c, ts) && j < |ts|
    ensures ParseTags(c, area, Pos(c, j)) == ts[j..]
    decreases |ts| - j
  {
    hide TagBytes, Limit, ParseTags, Pos, Placed;
    ParseOne(c, area, ts, j);
    assert ts[j..] == [ts[j]] + ts[j + 1..];
    if j + 1 < |ts| {
      PlacedParse(c, area, ts, j + 1);
    } else if !ts[j].last {
      ParseNone(c, area, Pos(c, |ts|));
    }
  }

  /** A closed descriptor block parses to exactly the tags that were placed in it. */
  lemma {:induction false} DescriptorRoundTrip(c: Config, area: TagArea, ts: seq<Tag>)
    requires Placed(c, area, ts) && Closed(c, ts)
    ensures ParseTags(c, area, JOURNAL_HEADER) == ts
  {
    PlacedParse(c, area, ts, 0);
  }

  lemma {:induction false} PosIncreases(c: Config, j: nat, k: nat)
    requires j < k
    ensures Pos(c, j) < Pos(c, k)
  {
    if j < k - 1 {
      PosIncreases(c, j, k - 1);
    }
  }

  lemma {:induction false} PlaceMore(c: Config, area: TagArea, ts: seq<Tag>, t: Tag)
    requires Placed(c, area, ts) && t.sameUuid == (|ts| > 0)
    requires Pos(c, |ts|) + TagBytes(c) <= Limit(c)
    ensures Placed(c, area[Pos(c, |ts|) := t], ts + [t])
  {
    forall j | 0 <= j < |ts| ensures Pos(c, j) < Pos(c, |ts|) {
      PosIncreases(c, j, |ts|);
    }
  }

  // ---- Revoke entries written one behind the other are read back ----

  function RevokePos(c: Config, k: nat): nat {
    if k == 0 then REVOKE_HEADER else RevokePos(c, k - 1) + RevokeBytes(c)
  }

  lemma {:induction false} RevokePosIncreases(c: Config, j: nat, k: nat)
    requires j < k
    ensures RevokePos(c, j) < RevokePos(c, k)
  {
    if j < k - 1 {
      RevokePosIncreases(c, j, k - 1);
    }
  }

  predicate PlacedRevokes(c: Config, entries: map<nat, nat>, rs: seq<nat>) {
    && RevokePos(c, |rs|) <= Limit(c)
    && forall j :: 0 <= j < |rs| ==> RevokePos(c, j) in entries && entries[RevokePos(c, j)] == rs[j]
  }

  lemma {:induction false} PlacedParseRevoke(c: Config, b: Block, rs: seq<nat>, j: nat)
    requires b.Revoke? && PlacedRevokes(c, b.entries, rs) && b.rCount == RevokePos(c, |rs|)
    requires j <= |rs|
    ensures ParseRevoke(c, b, RevokePos(c, j)) == rs[j..]
    decreases |rs| - j
  {
    if j < |rs| {
      RevokePosIncreases(c, j, |rs|);
      PlacedParseRevoke(c, b, rs, j + 1);
      assert rs[j..] == [rs[j]] + rs[j + 1..];
    }
  }

  lemma {:induction false} RevokeRoundTrip(c: Config, b: Block, rs: seq<nat>)
    requires b.Revoke? && PlacedRevokes(c, b.entries, rs) && b.rCount == RevokePos(c, |rs|)
    ensures ParseRevoke(c, b, REVOKE_HEADER) == rs
  {
    PlacedParseRevoke(c, b, rs, 0);
  }

  lemma {:induction false} PlaceMoreRevokes(c: Config, entries: map<nat, nat>, rs: seq<nat>, r: nat)
    requires PlacedRevokes(c, entries, rs)
    requires RevokePos(c, |rs|) + RevokeBytes(c) <= Limit(c)
    ensures PlacedRevokes(c, entries[RevokePos(c, |rs|) := r], rs + [r])
    ensures RevokePos(c, |rs + [r]|) == RevokePos(c, |rs|) + RevokeBytes(c)
  {
    forall j | 0 <= j < |rs| ensures RevokePos(c, j) < RevokePos(c, |rs|) {
      RevokePosIncreases(c, j, |rs|);
    }
  }

  // ---- What a scan passes over ----

  /** From block `s` a scan for `tid` passes over descriptors (with the data behind them) and
      revoke blocks, and comes out exactly at `e`. */
  ghost predicate ScansOver(c: Config, log: Log, tid: nat, s: nat, e: nat)
    decreases e - s
  {
    s == e ||
    (s < e && s in log && match log[s]
     case Descriptor(t, area) =>
       var n := |ParseTags(c, area, JOURNAL_HEADER)|;
       t == tid && s + 1 + n <= e && ScansOver(c, log, tid, s + 1 + n, e)
     case Revoke(t, _, _) => t == tid && ScansOver(c, log, tid, s + 1, e)
     case _ => false)
  }

  /** The tags passed over, each with the journal block that holds its data. */
  ghost function Tagged(c: Config, log: Log, tid: nat, s: nat, e: nat): seq<(Tag, nat)>
    requires ScansOver(c, log, tid, s, e)
    decreases e - s
  {
    if s == e then []
    else if log[s].Descriptor? then
      var ts := ParseTags(c, log[s].area, JOURNAL_HEADER);
      seq(|ts|, j requires 0 <= j < |ts| => (ts[j], s + 1 + j))
      + Tagged(c, log, tid, s + 1 + |ts|, e)
    else Tagged(c, log, tid, s + 1, e)
  }

  /** The revoke entries passed over. */
  ghost function Revoked(c: Config, log: Log, tid: nat, s: nat, e: nat): seq<nat>
    requires ScansOver(c, log, tid, s, e)
    decreases e - s
  {
    if s == e then []
    else if log[s].Descriptor? then
      Revoked(c, log, tid, s + 1 + |ParseTags(c, log[s].area, JOURNAL_HEADER)|, e)
    else ParseRevoke(c, log[s], REVOKE_HEADER) + Revoked(c, log, tid, s + 1, e)
  }

  predicate SameLog(a: Log, b: Log, s: nat, e: nat) {
    forall k :: s <= k < e ==> (k in a <==> k in b) && (k in a ==> a[k] == b[k])
  }

  lemma {:induction false} ScansFrame(c: Config, a: Log, b: Log, tid: nat, s: nat, e: nat)
    requires ScansOver(c, a, tid, s, e) && SameLog(a, b, s, e)
    ensures ScansOver(c, b, tid, s, e)
    ensures Tagged(c, b, tid, s, e) == Tagged(c, a, tid, s, e)
    ensures Revoked(c, b, tid, s, e) == Revoked(c, a, tid, s, e)
    decreases e - s
  {
    if s < e {
      ScansFrame(c, a, b, tid, Next(c, a, s), e);
    }
  }

  /** The block a scan looks at next. */
  function Next(c: Config, log: Log, s: nat): nat
    requires s in log
  {
    if log[s].Descriptor? then s + 1 + |ParseTags(c, log[s].area, JOURNAL_HEADER)| else s + 1
  }

  lemma {:induction false} ScansJoin(c: Config, log: Log, tid: nat, s: nat, m: nat, e: nat)
    requires ScansOver(c, log, tid, s, m) && ScansOver(c, log, tid, m, e)
    ensures s <= m <= e && ScansOver(c, log, tid, s, e)
    decreases m - s
  {
    ScansOrder(c, log, tid, m, e);
    if s < m {
      ScansJoin(c, log, tid, Next(c, log, s), m, e);
    }
  }

  lemma {:induction false} TaggedConcat(c: Config, log: Log, tid: nat, s: nat, m: nat, e: nat)
    requires ScansOver(c, log, tid, s, m) && ScansOver(c, log, tid, m, e)
    requires ScansOver(c, log, tid, s, e)
    ensures Tagged(c, log, tid, s, e) == Tagged(c, log, tid, s, m) + Tagged(c, log, tid, m, e)
    decreases m - s
  {
    if s < m {
      ScansOrder(c, log, tid, m, e);
      TaggedConcat(c, log, tid, Next(c, log, s), m, e);
    }
  }

  lemma {:induction false} RevokedConcat(c: Config, log: Log, tid: nat, s: nat, m: nat, e: nat)
    requires ScansOver(c, log, tid, s, m) && ScansOver(c, log, tid, m, e)
    requires ScansOver(c, log, tid, s, e)
    ensures Revoked(c, log, tid, s, e) == Revoked(c, log, tid, s, m) + Revoked(c, log, tid, m, e)
    decreases m - s
  {
    if s < m {
      ScansOrder(c, log, tid, m, e);
      RevokedConcat(c, log, tid, Next(c, log, s), m, e);
    }
  }

  /** What two stretches of the log hold, read in one go, is one behind the other. */
  lemma {:induction false} ScansConcat(c: Config, log: Log, tid: nat, s: nat, m: nat, e: nat)
    requires ScansOver(c, log, tid, s, m) && ScansOver(c, log, tid, m, e)
    ensures s <= m <= e && ScansOver(c, log, tid, s, e)
    ensures Tagged(c, log, tid, s, e) == Tagged(c, log, tid, s, m) + Tagged(c, log, tid, m, e)
    ensures Revoked(c, log, tid, s, e) == Revoked(c, log, tid, s, m) + Revoked(c, log, tid, m, e)
  {
    ScansJoin(c, log, tid, s, m, e);
    TaggedConcat(c, log, tid, s, m, e);
    RevokedConcat(c, log, tid, s, m, e);
  }

  lemma {:induction false} ScansOrder(c: Config, log: Log, tid: nat, s: nat, e: nat)
    requires ScansOver(c, log, tid, s, e)
    ensures s <= e
  {
  }
}
