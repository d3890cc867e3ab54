/** Extents in their on-disk form (lib/ext2fs/extent.c): a 16-bit length field that also tells
    written extents from unwritten ones. */
module ExtentDisk {
  import opened Extents
  import opened ExtentEdit
  import opened ExtentTree
  import opened FcScan

  /** ext2fs_decode_extent */
  function Decode(raw: RawExtent): Extent {
    if raw.eeLen > EXT_INIT_MAX_LEN then
      Extent(raw.eeBlock, raw.eeStart, raw.eeLen - EXT_INIT_MAX_LEN, true, 1)
    else Extent(raw.eeBlock, raw.eeStart, raw.eeLen, false, 1)
  }

  /** The on-disk form: the length of a written extent, and 0x8000 more for an unwritten one. */
  function OnDisk(e: Extent): RawExtent {
    RawExtent(e.lblk, if e.uninit then e.len + 0x8000 else e.len, e.pblk)
  }

  /** The bits of the fields: 32 for the logical block, 16 for the length, 48 for the physical
      block. */
  predicate FieldsFit(raw: RawExtent) {
    raw.eeBlock < 0x1_0000_0000 && raw.eeLen < 0x1_0000 && raw.eeStart < 0x1_0000_0000_0000
  }

  /** Reading the form back gives the extent, whatever its other flags. */
  predicate ReadsBack(e: Extent) {
    var d := Decode(OnDisk(e));
    d.lblk == e.lblk && d.pblk == e.pblk && d.len == e.len && d.uninit == e.uninit
  }

  /** The pieces a list is split into are exactly those whose length the form can hold: they fit its
      16 bits and are read back as they were. */
  lemma {:induction false} WritableExact(e: Extent)
    requires e.len > 0 && e.otherFlags == 0
    ensures Writable(e) <==> OnDisk(e).eeLen < 0x1_0000 && ReadsBack(e)
  {
  }

  /** What is written for a list is read back, piece by piece. */
  lemma {:induction false} RewrittenReadBack(s: seq<Extent>, e: Extent)
    requires Sorted(s) && e in Rewritten(s) && e.pblk < 0x1_0000_0000_0000
    ensures FieldsFit(OnDisk(e)) && ReadsBack(e)
  {
    RewrittenSameMap(s);
    var i :| 0 <= i < |Rewritten(s)| && Rewritten(s)[i] == e;
    WritableExact(e);
  }

  /** Forms that differ are of different extents. */
  lemma {:induction false} DecodeApart(x: RawExtent, y: RawExtent)
    requires FieldsFit(x) && FieldsFit(y)
    ensures Decode(x) == Decode(y) <==> x == y
    ensures OnDisk(Decode(x)) == x
  {
  }

  /** An addition maps the blocks of the on-disk extent, from its 16-bit length without the top bit
      if it is more than 0x8000 (then as unwritten), and leaves every other block alone. */
  lemma {:induction false} AddedMeans(m: map<nat, Mapped>, raw: RawExtent, b: nat)
    ensures var unwritten := raw.eeLen > 0x8000;
            var len := if unwritten then raw.eeLen - 0x8000 else raw.eeLen;
            var r := Update(m, Decode(raw), false);
            if raw.eeBlock <= b < raw.eeBlock + len then
              b in r && r[b] == Mapped(raw.eeStart + (b - raw.eeBlock), unwritten)
            else (b in r <==> b in m) && (b in m ==> r[b] == m[b])
  {
  }
}
