/** The bytes of descriptor and revoke blocks (lib/ext2fs/kernel-jbd.h, debugfs/do_journal.c): what
    is written at the offsets of JournalFormat lies behind each other, leaves the checksum tail
    free, and is read back from the bytes alone. */
module JournalBytes {
  import opened Basics
  import opened JournalFormat

  // ---- Big-endian fields ----

  function Be(x: nat, n: nat): (b: seq<byte>)
    ensures |b| == n
  {
    if n == 0 then [] else Be(x / 256, n - 1) + [x % 256]
  }

  function Value(b: seq<byte>): nat {
    if b == [] then 0 else Value(b[..|b| - 1]) * 256 + b[|b| - 1] as nat
  }

  function Pow256(n: nat): nat {
    if n == 0 then 1 else 256 * Pow256(n - 1)
  }

  lemma {:induction false} BeValue(x: nat, n: nat)
    requires x < Pow256(n)
    ensures Value(Be(x, n)) == x
  {
    if n > 0 {
      BeValue(x / 256, n - 1);
      assert Be(x, n)[..n - 1] == Be(x / 256, n - 1);
    }
  }

  /** The number in `n` bytes from `off` on. */
  function Field(b: seq<byte>, off: nat, n: nat): nat
    requires off + n <= |b|
  {
    Value(b[off..off + n])
  }

  // ---- A tag ----

  /** The flag bits: 1 for an escaped block, 2 for the same UUID, 8 for the last tag. */
  function Flags(t: Tag): nat {
    (if t.escape then 1 else 0) + (if t.sameUuid then 2 else 0) + if t.last then 8 else 0
  }

  /** The bytes of a tag: the low half of the block number, 16 bits of checksum, the flags, and the
      high half if there is one; behind that a checksum of 32 bits (version 3) or two unused
      bytes (version 2). */
  function TagImage(c: Config, t: Tag): seq<byte> {
    Be(t.blocknr % 0x1_0000_0000, 4) + Be(0, 2) + Be(Flags(t), 2)
    + (if c.csum3 || c.has64 then Be(t.blocknr / 0x1_0000_0000, 4) else [])
    + if c.csum3 then Be(0, 4) else if c.csum2 then Be(0, 2) else []
  }

  /** A tag as a reader finds it in the bytes. */
  function ReadTag(c: Config, b: seq<byte>, off: nat): Tag
    requires off + 8 <= |b| && (c.has64 ==> off + 12 <= |b|)
  {
    var flags := Field(b, off + 6, 2);
    Tag(Field(b, off, 4) + (if c.has64 then 0x1_0000_0000 * Field(b, off + 8, 4) else 0),
        flags / 2 % 2 == 1, flags / 8 % 2 == 1, flags % 2 == 1)
  }

  /** The numbers that the tags of this layout can hold. */
  predicate NumberFits(c: Config, n: nat) {
    n < if c.has64 then 0x1_0000_0000_0000_0000 else 0x1_0000_0000
  }

  /** What takes the bytes of a tag: the structure, cut by the high half where that is not used. */
  lemma {:induction false} TagImageSize(c: Config, t: Tag)
    ensures |TagImage(c, t)| == TagBytes(c)
    ensures TagBytes(c) == (if c.csum3 then 16 else if c.csum2 then if c.has64 then 14 else 10
                            else if c.has64 then 12 else 8)
  {
  }

  lemma {:induction false} FieldAt(pre: seq<byte>, x: seq<byte>, post: seq<byte>)
    ensures Field(pre + x + post, |pre|, |x|) == Value(x)
  {
    assert (pre + x + post)[|pre|..|pre| + |x|] == x;
  }

  lemma {:induction false} FlagsBack(t: Tag)
    ensures Flags(t) < 256 && Value(Be(Flags(t), 2)) == Flags(t)
    ensures Flags(t) / 2 % 2 == (if t.sameUuid then 1 else 0)
    ensures Flags(t) / 8 % 2 == (if t.last then 1 else 0)
    ensures Flags(t) % 2 == (if t.escape then 1 else 0)
  {
    assert Pow256(2) == 256 * (256 * Pow256(0));
    BeValue(Flags(t), 2);
  }

  lemma {:induction false} HalvesBack(n: nat)
    requires n < 0x1_0000_0000_0000_0000
    ensures Value(Be(n % 0x1_0000_0000, 4)) == n % 0x1_0000_0000
    ensures Value(Be(n / 0x1_0000_0000, 4)) == n / 0x1_0000_0000
  {
    assert Pow256(4) == 256 * (256 * (256 * (256 * Pow256(0))));
    BeValue(n % 0x1_0000_0000, 4);
    BeValue(n / 0x1_0000_0000, 4);
  }

  lemma {:induction false} LowBack(c: Config, t: Tag, pre: seq<byte>, post: seq<byte>)
    ensures var b := pre + TagImage(c, t) + post;
            |b| >= |pre| + 8 && Field(b, |pre|, 4) == Value(Be(t.blocknr % 0x1_0000_0000, 4))
  {
    hide Be, Value, Field;
    var lo, img := Be(t.blocknr % 0x1_0000_0000, 4), TagImage(c, t);
    assert img == lo + img[4..];
    assert pre + img + post == pre + lo + (img[4..] + post);
    FieldAt(pre, lo, img[4..] + post);
  }

  lemma {:induction false} FlagsFieldBack(c: Config, t: Tag, pre: seq<byte>, post: seq<byte>)
    ensures var b := pre + TagImage(c, t) + post;
            |b| >= |pre| + 8 && Field(b, |pre| + 6, 2) == Value(Be(Flags(t), 2))
  {
    hide Be, Value, Field, Flags;
    var fl, img := Be(Flags(t), 2), TagImage(c, t);
    assert img == img[..6] + fl + img[8..];
    assert pre + img + post == (pre + img[..6]) + fl + (img[8..] + post);
    FieldAt(pre + img[..6], fl, img[8..] + post);
  }

  lemma {:induction false} HighBack(c: Config, t: Tag, pre: seq<byte>, post: seq<byte>)
    requires c.has64
    ensures var b := pre + TagImage(c, t) + post;
            |b| >= |pre| + 12 && Field(b, |pre| + 8, 4) == Value(Be(t.blocknr / 0x1_0000_0000, 4))
  {
    hide Be, Value, Field, Flags;
    var hi, img := Be(t.blocknr / 0x1_0000_0000, 4), TagImage(c, t);
    assert img == img[..8] + hi + img[12..];
    assert pre + img + post == (pre + img[..8]) + hi + (img[12..] + post);
    FieldAt(pre + img[..8], hi, img[12..] + post);
  }

  /** A tag is read back from its bytes, wherever they stand. */
  lemma {:induction false} TagBack(c: Config, t: Tag, pre: seq<byte>, post: seq<byte>)
    requires NumberFits(c, t.blocknr)
    ensures var b := pre + TagImage(c, t) + post;
            |b| >= |pre| + TagBytes(c) && ReadTag(c, b, |pre|) == t
  {
    hide Be, Value, Field, Flags, TagImage;
    TagImageSize(c, t);
    FlagsBack(t);
    HalvesBack(t.blocknr);
    LowBack(c, t, pre, post);
    FlagsFieldBack(c, t, pre, post);
    if c.has64 {
      HighBack(c, t, pre, post);
    }
  }

  // ---- A descriptor block ----

  /** The tags from the `k`-th on, the first one of the block followed by a UUID. */
  function TagsImage(c: Config, ts: seq<Tag>, k: nat, uuid: seq<byte>): seq<byte>
    requires k <= |ts|
    decreases |ts| - k
  {
    if k == |ts| then []
    else TagImage(c, ts[k]) + (if k == 0 then uuid else []) + TagsImage(c, ts, k + 1, uuid)
  }

  /** What a reader finds in the bytes of a block from `off` on: tags of 8 to 16 bytes, a UUID of 16
      bytes behind one that does not have the same, up to the tag that says it is the last, or as
      long as there is room before the last 4 bytes, if those are a checksum. */
  function ReadTags(c: Config, b: seq<byte>, off: nat): seq<Tag>
    decreases |b| - off
  {
    var size := if c.csum3 then 16 else if c.csum2 then if c.has64 then 14 else 10
                else if c.has64 then 12 else 8;
    if off + size > |b| - (if c.csum2 || c.csum3 then 4 else 0) then []
    else
      var t := ReadTag(c, b, off);
      [t] + if t.last then [] else ReadTags(c, b, off + size + if t.sameUuid then 0 else 16)
  }

  lemma {:induction false} TagsImageSize(c: Config, ts: seq<Tag>, k: nat, uuid: seq<byte>)
    requires k <= |ts| && |uuid| == 16
    ensures Pos(c, k) + |TagsImage(c, ts, k, uuid)| == Pos(c, |ts|)
    decreases |ts| - k
  {
    if k < |ts| {
      TagImageSize(c, ts[k]);
      TagsImageSize(c, ts, k + 1, uuid);
    }
  }

  lemma {:induction false} TagsBack(c: Config, ts: seq<Tag>, k: nat, uuid: seq<byte>, pre: seq<byte>, post: seq<byte>)
    requires k < |ts| && |uuid| == 16 && Closed(c, ts) && |pre| == Pos(c, k)
    requires forall j :: 0 <= j < |ts| ==> NumberFits(c, ts[j].blocknr) && ts[j].sameUuid == (j > 0)
    requires |pre + TagsImage(c, ts, k, uuid) + post| == c.blocksize
    requires forall j :: 0 <= j < |ts| ==> Pos(c, j) + TagBytes(c) <= Limit(c)
    ensures ReadTags(c, pre + TagsImage(c, ts, k, uuid) + post, Pos(c, k)) == ts[k..]
    decreases |ts| - k
  {
    hide Closed, NumberFits, TagBytes, Limit, Pos, TagImage, ReadTag, ReadTags;
    var b := pre + TagsImage(c, ts, k, uuid) + post;
    var gap := if k == 0 then uuid else [];
    var rest := TagsImage(c, ts, k + 1, uuid);
    assert b == pre + TagImage(c, ts[k]) + (gap + rest + post);
    TagBack(c, ts[k], pre, gap + rest + post);
    TagImageSize(c, ts[k]);
    ReadOne(c, b, Pos(c, k));
    PosNext(c, k);
    ClosedAt(c, ts, k);
    assert ts[k..] == [ts[k]] + ts[k + 1..];
    if k + 1 < |ts| {
      var pre' := pre + TagImage(c, ts[k]) + gap;
      assert b == pre' + rest + post;
      TagsBack(c, ts, k + 1, uuid, pre', post);
    } else if !ts[k].last {
      ReadNone(c, b, Pos(c, k + 1));
    }
  }

  lemma {:induction false} ReadOne(c: Config, b: seq<byte>, off: nat)
    requires |b| == c.blocksize && off + TagBytes(c) <= Limit(c)
    ensures off + 8 <= |b| && (c.has64 ==> off + 12 <= |b|)
    ensures var t := ReadTag(c, b, off);
            ReadTags(c, b, off) ==
            [t] + if t.last then [] else ReadTags(c, b, off + TagBytes(c) + if t.sameUuid then 0 else 16)
  {
    hide ReadTag;
  }

  lemma {:induction false} ReadNone(c: Config, b: seq<byte>, off: nat)
    requires |b| == c.blocksize && off + TagBytes(c) > Limit(c)
    ensures ReadTags(c, b, off) == []
  {
  }

  lemma {:induction false} LimitIs(c: Config)
    ensures Limit(c) == c.blocksize - if c.csum2 || c.csum3 then 4 else 0
  {
  }

  lemma {:induction false} PosNext(c: Config, k: nat)
    ensures Pos(c, k + 1) == Pos(c, k) + TagBytes(c) + if k == 0 then 16 else 0
  {
  }

  lemma {:induction false} ClosedAt(c: Config, ts: seq<Tag>, k: nat)
    requires Closed(c, ts) && k < |ts|
    ensures k + 1 < |ts| ==> !ts[k].last
    ensures k + 1 == |ts| ==> ts[k].last || Pos(c, k + 1) + TagBytes(c) > Limit(c)
  {
  }

  /** The bytes of a descriptor block: header, tags with the UUID, and zeros. */
  function DescriptorImage(c: Config, ts: seq<Tag>, header: seq<byte>, uuid: seq<byte>): seq<byte>
    requires |header| == 12 && |uuid| == 16 && 12 + |TagsImage(c, ts, 0, uuid)| <= c.blocksize
  {
    header + TagsImage(c, ts, 0, uuid) + seq(c.blocksize - 12 - |TagsImage(c, ts, 0, uuid)|, _ => 0)
  }

  /** Tags that were placed in a descriptor and close it take bytes behind each other, end before the
      checksum tail, and are what a reader finds in the bytes. */
  lemma {:induction false} DescriptorBytes(c: Config, area: TagArea, ts: seq<Tag>, header: seq<byte>, uuid: seq<byte>)
    requires Usable(c) && Placed(c, area, ts) && Closed(c, ts) && |header| == 12 && |uuid| == 16
    requires forall t :: t in ts ==> NumberFits(c, t.blocknr)
    ensures 12 + |TagsImage(c, ts, 0, uuid)| == Pos(c, |ts|) <= Limit(c)
    ensures var b := DescriptorImage(c, ts, header, uuid);
            && |b| == c.blocksize && ReadTags(c, b, 12) == ts
            && (c.csum2 || c.csum3 ==> forall i :: c.blocksize - 4 <= i < c.blocksize ==> b[i] == 0)
  {
    hide NumberFits, TagBytes, Limit, Pos, TagsImage, ReadTags;
    TagsImageSize(c, ts, 0, uuid);
    LastEnds(c, area, ts);
    LimitIs(c);
    PosFirst(c);
    var zeros := seq(c.blocksize - 12 - |TagsImage(c, ts, 0, uuid)|, _ => 0);
    TagsBack(c, ts, 0, uuid, header, zeros);
    assert ts[0..] == ts;
  }

  lemma {:induction false} PosFirst(c: Config)
    ensures Pos(c, 0) == 12
  {
  }

  lemma {:induction false} LastEnds(c: Config, area: TagArea, ts: seq<Tag>)
    requires Usable(c) && Placed(c, area, ts) && ts != []
    ensures Pos(c, |ts|) <= Limit(c)
  {
    assert Pos(c, |ts| - 1) + TagBytes(c) <= Limit(c);
  }

  // ---- A revoke block ----

  function EntrySize(c: Config): nat {
    if c.has64 then 8 else 4
  }

  function RevokesImage(c: Config, rs: seq<nat>): seq<byte> {
    if rs == [] then [] else RevokesImage(c, rs[..|rs| - 1]) + Be(rs[|rs| - 1], EntrySize(c))
  }

  /** The block numbers that a reader finds in the bytes from `off` up to the byte count. */
  function ReadRevokes(c: Config, b: seq<byte>, off: nat, count: nat): seq<nat>
    decreases |b| - off
  {
    if off >= count || off + EntrySize(c) > |b| then []
    else [Field(b, off, EntrySize(c))] + ReadRevokes(c, b, off + EntrySize(c), count)
  }

  /** The bytes of a revoke block: header, byte count, entries, and zeros. */
  function RevokeImage(c: Config, rs: seq<nat>, header: seq<byte>): seq<byte>
    requires |header| == 12 && 16 + |RevokesImage(c, rs)| <= c.blocksize
  {
    header + Be(16 + |RevokesImage(c, rs)|, 4) + RevokesImage(c, rs)
    + seq(c.blocksize - 16 - |RevokesImage(c, rs)|, _ => 0)
  }

  lemma {:induction false} RevokesImageSize(c: Config, rs: seq<nat>)
    ensures 16 + |RevokesImage(c, rs)| == RevokePos(c, |rs|)
    ensures |RevokesImage(c, rs)| == |rs| * EntrySize(c)
  {
    if rs != [] {
      RevokesImageSize(c, rs[..|rs| - 1]);
    }
  }

  lemma {:induction false} EntryBack(c: Config, n: nat)
    requires NumberFits(c, n)
    ensures Value(Be(n, EntrySize(c))) == n
  {
    assert Pow256(4) == 256 * (256 * (256 * (256 * Pow256(0))));
    assert Pow256(8) == 256 * (256 * (256 * (256 * Pow256(4))));
    BeValue(n, EntrySize(c));
  }

  lemma {:induction false} RevokesPrefix(c: Config, rs: seq<nat>, k: nat)
    requires k <= |rs|
    ensures RevokesImage(c, rs[..k]) <= RevokesImage(c, rs)
    decreases |rs| - k
  {
    if k < |rs| {
      RevokesPrefix(c, rs, k + 1);
      assert rs[..k + 1][..k] == rs[..k];
    } else {
      assert rs[..k] == rs;
    }
  }

  /** Each number stands behind those before it. */
  lemma {:induction false} EntryAt(c: Config, rs: seq<nat>, k: nat, pre: seq<byte>, post: seq<byte>)
    requires k < |rs| && NumberFits(c, rs[k]) && |pre| == 16
    ensures var b := pre + RevokesImage(c, rs) + post;
            && RevokePos(c, k) + EntrySize(c) <= |b|
            && Field(b, RevokePos(c, k), EntrySize(c)) == rs[k]
  {
    var front, all, e := RevokesImage(c, rs[..k]), RevokesImage(c, rs), Be(rs[k], EntrySize(c));
    RevokesPrefix(c, rs, k + 1);
    assert rs[..k + 1][..k] == rs[..k];
    assert RevokesImage(c, rs[..k + 1]) == front + e;
    var rest := all[|front + e|..];
    assert all == front + e + rest;
    assert pre + all + post == (pre + front) + e + (rest + post);
    RevokesImageSize(c, rs[..k]);
    FieldAt(pre + front, e, rest + post);
    EntryBack(c, rs[k]);
  }

  lemma {:induction false} RevokesBack(c: Config, rs: seq<nat>, k: nat, pre: seq<byte>, post: seq<byte>)
    requires k <= |rs| && |pre| == 16 && forall r :: r in rs ==> NumberFits(c, r)
    ensures ReadRevokes(c, pre + RevokesImage(c, rs) + post, RevokePos(c, k), RevokePos(c, |rs|)) == rs[k..]
    decreases |rs| - k
  {
    hide RevokesImage, Field, NumberFits, EntrySize;
    if k < |rs| {
      EntryAt(c, rs, k, pre, post);
      RevokePosIncreases(c, k, |rs|);
      RevokePosNext(c, k);
      RevokesBack(c, rs, k + 1, pre, post);
      assert rs[k..] == [rs[k]] + rs[k + 1..];
    }
  }

  lemma {:induction false} RevokePosNext(c: Config, k: nat)
    ensures RevokePos(c, k + 1) == RevokePos(c, k) + EntrySize(c)
  {
  }

  /** Revoke entries that were placed in a block take 8 or 4 bytes each, end before the checksum tail,
      and are what a reader finds in the bytes. */
  lemma {:induction false} RevokeBlockBytes(c: Config, entries: map<nat, nat>, rs: seq<nat>, header: seq<byte>)
    requires Usable(c) && c.blocksize < 0x1_0000_0000 && PlacedRevokes(c, entries, rs) && |header| == 12
    requires forall r :: r in rs ==> NumberFits(c, r)
    ensures 16 + |RevokesImage(c, rs)| == RevokePos(c, |rs|) <= c.blocksize - if c.csum2 || c.csum3 then 4 else 0
    ensures var b := RevokeImage(c, rs, header);
            && |b| == c.blocksize && Field(b, 12, 4) == RevokePos(c, |rs|)
            && ReadRevokes(c, b, 16, Field(b, 12, 4)) == rs
            && (c.csum2 || c.csum3 ==> forall i :: c.blocksize - 4 <= i < c.blocksize ==> b[i] == 0)
  {
    hide Be, Value, Field, ReadRevokes, NumberFits, RevokesImage;
    RevokesImageSize(c, rs);
    LimitIs(c);
    var img := RevokesImage(c, rs);
    var count, zeros := Be(16 + |img|, 4), seq(c.blocksize - 16 - |img|, _ => 0);
    CountBack(16 + |img|);
    FieldAt(header, count, img + zeros);
    assert RevokeImage(c, rs, header) == header + count + (img + zeros);
    RevokesBack(c, rs, 0, header + count, zeros);
    assert RevokeImage(c, rs, header) == (header + count) + img + zeros;
    assert rs[0..] == rs && RevokePos(c, 0) == 16;
  }

  lemma {:induction false} CountBack(n: nat)
    requires n < 0x1_0000_0000
    ensures Value(Be(n, 4)) == n
  {
    assert Pow256(4) == 256 * (256 * (256 * (256 * Pow256(0))));
    BeValue(n, 4);
  }
}
