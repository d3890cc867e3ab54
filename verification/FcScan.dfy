/** The scan phase of fast-commit recovery (e2fsck/journal.c): how long a prefix of the
    tag stream is committed. */
module FcScan {

  /** An on-disk extent as an ADD_RANGE tag carries it. */
  datatype RawExtent = RawExtent(eeBlock: nat, eeLen: nat, eeStart: nat)

  /** One tag-length-value record of a fast-commit block. */
  datatype Tag =
    | AddRange(ino: nat, raw: RawExtent)
    | DelRange(ino: nat, lblk: nat, len: nat)
    | Creat(ino: nat)
    | Link(ino: nat)
    | Unlink(ino: nat)
    | Inode(ino: nat)
    | Pad
    | Tail(tid: nat, crc: nat)
    | Head(features: nat, tid: nat)
    | Unknown(code: nat)

  /** What the callbacks return; all but the first two are negative error codes. */
  datatype Verdict =
    | Continue | Stop | Corrupted | BadCrc | NotSupported | Invalid | Canceled | ReadFailed

  predicate IsError(v: Verdict) {
    v != Continue && v != Stop
  }

  /** jbd2_chksum, left abstract: it chains a checksum over the bytes of one tag. */
  type Checksum = (nat, Tag) -> nat

  /** The part of a TAIL that is covered by its own checksum: everything before fc_crc. */
  function Covered(t: Tag): Tag {
    if t.Tail? then t.(crc := 0) else t
  }

  // ---- What a committed prefix is ----

  /** The position behind the last TAIL among the first `n` tags, or 0 if there is none. */
  function GroupStart(s: seq<Tag>, n: nat): (g: nat)
    requires n <= |s|
    ensures g <= n
  {
    if n == 0 then 0 else if s[n - 1].Tail? then n else GroupStart(s, n - 1)
  }

  /** The checksum over the tags from `a` up to `b`. */
  function Chain(chk: Checksum, s: seq<Tag>, a: nat, b: nat): nat
    requires a <= b <= |s|
  {
    if a == b then 0 else chk(Chain(chk, s, a, b - 1), s[b - 1])
  }

  /** Tag `i` is one the scan goes on behind: a known tag; a HEAD with no unsupported feature
      and the expected id; a TAIL with the expected id and with the checksum of exactly the
      tags since the previous TAIL. */
  predicate TagOk(chk: Checksum, s: seq<Tag>, i: nat, tid: nat)
    requires i < |s|
  {
    match s[i]
    case Unknown(_) => false
    case Head(features, t) => features == 0 && t == tid
    case Tail(t, crc) => t == tid && crc == chk(Chain(chk, s, GroupStart(s, i), i), Covered(s[i]))
    case _ => true
  }

  predicate AllOk(chk: Checksum, s: seq<Tag>, n: nat, tid: nat)
    requires n <= |s|
  {
    forall i :: 0 <= i < n ==> TagOk(chk, s, i, tid)
  }

  /** The number of tags in front of the first one the scan does not accept. */
  function OkLength(chk: Checksum, s: seq<Tag>, from: nat, tid: nat): (n: nat)
    requires from <= |s|
    ensures from <= n <= |s|
    ensures forall i :: from <= i < n ==> TagOk(chk, s, i, tid)
    ensures n < |s| ==> !TagOk(chk, s, n, tid)
    decreases |s| - from
  {
    if from < |s| && TagOk(chk, s, from, tid) then OkLength(chk, s, from + 1, tid) else from
  }

  function Flatten(blocks: seq<seq<Tag>>): seq<Tag> {
    if blocks == [] then [] else blocks[0] + Flatten(blocks[1..])
  }

  predicate StartsWithHead(blocks: seq<seq<Tag>>) {
    blocks != [] && blocks[0] != [] && blocks[0][0].Head?
  }

  /** The committed prefix of the fast-commit area. */
  function Committed(chk: Checksum, blocks: seq<seq<Tag>>, tid: nat): nat {
    if StartsWithHead(blocks) then
      GroupStart(Flatten(blocks), OkLength(chk, Flatten(blocks), 0, tid))
    else 0
  }

  /** The committed prefix is empty or ends with a TAIL; all its tags are accepted, so it has no
      unknown tag; and no longer prefix that ends with a TAIL is accepted.  Every group of
      tags between two TAILs is therefore in it whole or not at all. */
  lemma {:induction false} CommittedIsLatestTail(chk: Checksum, blocks: seq<seq<Tag>>, tid: nat, m: nat)
    requires StartsWithHead(blocks)
    requires m <= |Flatten(blocks)|
    ensures var s, n := Flatten(blocks), Committed(chk, blocks, tid);
            && n <= |s| && (n == 0 || s[n - 1].Tail?)
            && AllOk(chk, s, n, tid)
            && (forall i :: 0 <= i < n ==> !s[i].Unknown?)
            && (m > n && s[m - 1].Tail? ==> !AllOk(chk, s, m, tid))
  {
    var s := Flatten(blocks);
    var ok := OkLength(chk, s, 0, tid);
    GroupStartLatest(s, ok, m);
    forall i | 0 <= i < Committed(chk, blocks, tid) ensures !s[i].Unknown? {
      assert TagOk(chk, s, i, tid);
    }
  }

  lemma {:induction false} GroupStartLatest(s: seq<Tag>, n: nat, m: nat)
    requires n <= |s| && m <= |s|
    ensures var g := GroupStart(s, n);
            (g == 0 || s[g - 1].Tail?) && (g < m <= n ==> !s[m - 1].Tail?)
  {
    if n > 0 && !s[n - 1].Tail? {
      GroupStartLatest(s, n - 1, if m == n then m - 1 else m);
    }
  }

  /** The checksum carried on over tags, from the first one. */
  function Fold(chk: Checksum, x: nat, ts: seq<Tag>): nat
    decreases |ts|
  {
    if ts == [] then x else Fold(chk, chk(x, ts[0]), ts[1..])
  }

  lemma {:induction false} FoldMore(chk: Checksum, x: nat, ts: seq<Tag>, t: Tag)
    ensures Fold(chk, x, ts + [t]) == chk(Fold(chk, x, ts), t)
    decreases |ts|
  {
    if ts == [] {
      assert [t][1..] == [];
      assert Fold(chk, chk(x, t), []) == chk(x, t);
      assert ts + [t] == [t];
    } else {
      assert (ts + [t])[1..] == ts[1..] + [t];
      FoldMore(chk, chk(x, ts[0]), ts[1..], t);
    }
  }

  lemma {:induction false} ChainIsFold(chk: Checksum, s: seq<Tag>, a: nat, b: nat)
    requires a <= b <= |s|
    ensures Chain(chk, s, a, b) == Fold(chk, 0, s[a..b])
    decreases b - a
  {
    if a < b {
      ChainIsFold(chk, s, a, b - 1);
      assert s[a..b] == s[a..b - 1] + [s[b - 1]];
      FoldMore(chk, 0, s[a..b - 1], s[b - 1]);
    }
  }

  /** A tag that may stand in a group in front of its TAIL. */
  predicate InGroup(t: Tag, tid: nat) {
    !t.Unknown? && !t.Tail? && (t.Head? ==> t.features == 0 && t.tid == tid)
  }

  lemma {:induction false} GroupStartIs(s: seq<Tag>, a: nat, n: nat)
    requires a <= n <= |s| && (a == 0 || s[a - 1].Tail?) && forall i :: a <= i < n ==> !s[i].Tail?
    ensures GroupStart(s, n) == a
    decreases n - a
  {
    if a < n {
      GroupStartIs(s, a, n - 1);
    }
  }

  /** A group of tags behind an accepted prefix is committed by the TAIL behind it if and only if that
      has the expected id and the checksum of the tags of the group, carried on from 0, and of the
      TAIL itself without its checksum. */
  lemma {:induction false} GroupAccepted(chk: Checksum, before: seq<Tag>, group: seq<Tag>, t: nat, crc: nat, tid: nat)
    requires AllOk(chk, before, |before|, tid) && (before == [] || before[|before| - 1].Tail?)
    requires forall g :: g in group ==> InGroup(g, tid)
    ensures var s := before + group + [Tail(t, crc)];
            AllOk(chk, s, |s|, tid) <==> t == tid && crc == chk(Fold(chk, 0, group), Tail(t, 0))
  {
    var s := before + group + [Tail(t, crc)];
    var a, n := |before|, |before + group|;
    forall i | 0 <= i < n ensures TagOk(chk, s, i, tid) {
      if i < a {
        assert s == before + (group + [Tail(t, crc)]);
        TagOkPrefix(chk, before, group + [Tail(t, crc)], i, tid);
      } else {
        assert s[i] == group[i - a] && group[i - a] in group;
      }
    }
    forall i | a <= i < n ensures !s[i].Tail? {
      assert s[i] == group[i - a] && group[i - a] in group;
    }
    assert a > 0 ==> s[a - 1] == before[a - 1];
    GroupStartIs(s, a, n);
    assert s[a..n] == group;
    ChainIsFold(chk, s, a, n);
    assert s[n] == Tail(t, crc);
    assert TagOk(chk, s, n, tid) <==> t == tid && crc == chk(Fold(chk, 0, group), Tail(t, 0));
  }

  /** What the scan returns at the first tag it does not accept: a broken or unknown tag ends
      the scan if something is committed already, and is an error otherwise. */
  function Refusal(t: Tag, numTags: nat): Verdict {
    match t
    case Head(features, _) => if features != 0 then NotSupported else Invalid
    case Tail(_, _) => if numTags > 0 then Stop else BadCrc
    case _ => if numTags > 0 then Stop else Canceled
  }

  /** The result of the scan: it ends at the first tag that is not accepted, and does not begin
      without a HEAD. */
  function ScanVerdict(chk: Checksum, blocks: seq<seq<Tag>>, tid: nat): Verdict {
    if blocks == [] then Continue
    else if !StartsWithHead(blocks) then Stop
    else
      var s := Flatten(blocks);
      var n := OkLength(chk, s, 0, tid);
      if n == |s| then Continue else Refusal(s[n], GroupStart(s, n))
  }

  lemma {:induction false} NoGroup(s: seq<Tag>, n: nat)
    requires n <= |s|
    ensures GroupStart(s, n) == 0 <==> forall i :: 0 <= i < n ==> !s[i].Tail?
  {
    if n > 0 && !s[n - 1].Tail? {
      NoGroup(s, n - 1);
    }
  }

  /** When the scan fails, `n` being the number of tags in front of the first one it does not accept:
      at a HEAD always, and otherwise exactly if no TAIL was accepted before.  Else what is
      committed is replayed. */
  lemma {:induction false} ScanFails(chk: Checksum, blocks: seq<seq<Tag>>, tid: nat, n: nat)
    requires StartsWithHead(blocks) && n <= |Flatten(blocks)| && AllOk(chk, Flatten(blocks), n, tid)
    requires n < |Flatten(blocks)| ==> !TagOk(chk, Flatten(blocks), n, tid)
    ensures var s, v := Flatten(blocks), ScanVerdict(chk, blocks, tid);
            var open := forall i :: 0 <= i < n ==> !s[i].Tail?;
            && (IsError(v) <==> n < |s| && (s[n].Head? || open))
            && (v == NotSupported <==> n < |s| && s[n].Head? && s[n].features != 0)
            && (v == Invalid <==> n < |s| && s[n].Head? && s[n].features == 0)
            && (v == BadCrc <==> n < |s| && s[n].Tail? && open)
            && (v == Canceled <==> n < |s| && s[n].Unknown? && open)
            && (v == Continue <==> n == |s|)
            && (v == Stop ==> Committed(chk, blocks, tid) > 0)
  {
    var s := Flatten(blocks);
    OkLengthIs(chk, s, n, tid);
    NoGroup(s, n);
  }

  // ---- Both functions only look back ----

  lemma {:induction false} GroupStartPrefix(s: seq<Tag>, t: seq<Tag>, n: nat)
    requires n <= |s|
    ensures GroupStart(s + t, n) == GroupStart(s, n)
  {
    if n > 0 { GroupStartPrefix(s, t, n - 1); }
  }

  lemma {:induction false} ChainPrefix(chk: Checksum, s: seq<Tag>, t: seq<Tag>, a: nat, b: nat)
    requires a <= b <= |s|
    ensures Chain(chk, s + t, a, b) == Chain(chk, s, a, b)
  {
    if a < b { ChainPrefix(chk, s, t, a, b - 1); }
  }

  lemma {:induction false} TagOkPrefix(chk: Checksum, s: seq<Tag>, t: seq<Tag>, i: nat, tid: nat)
    requires i < |s|
    ensures TagOk(chk, s + t, i, tid) <==> TagOk(chk, s, i, tid)
  {
    GroupStartPrefix(s, t, i);
    ChainPrefix(chk, s, t, GroupStart(s, i), i);
  }

  lemma {:induction false} OkLengthFrom(chk: Checksum, s: seq<Tag>, from: nat, n: nat, tid: nat)
    requires from <= n <= |s| && AllOk(chk, s, n, tid) && (n < |s| ==> !TagOk(chk, s, n, tid))
    ensures OkLength(chk, s, from, tid) == n
    decreases n - from
  {
    if from < n {
      assert TagOk(chk, s, from, tid);
      OkLengthFrom(chk, s, from + 1, n, tid);
    }
  }

  lemma {:induction false} OkLengthIs(chk: Checksum, s: seq<Tag>, n: nat, tid: nat)
    requires n <= |s| && AllOk(chk, s, n, tid) && (n < |s| ==> !TagOk(chk, s, n, tid))
    ensures OkLength(chk, s, 0, tid) == n
  {
    OkLengthFrom(chk, s, 0, n, tid);
  }

  // ---- The scan ----

  class ScanState {
    const chk: Checksum
    var numTags: nat        // fc_replay_num_tags
    var expectedOff: nat    // fc_replay_expected_off
    var curTag: nat         // fc_cur_tag
    var crc: nat            // fc_crc
    ghost var accepted: seq<Tag>  // the tags accepted so far

    constructor (chk: Checksum)
      ensures this.chk == chk && expectedOff == 0 && numTags == 0
    {
      this.chk := chk;
      numTags, expectedOff, curTag, crc, accepted := 0, 0, 0, 0, [];
    }

    /** The counters while every tag so far was accepted: the number of tags is 0 or the
        position of the latest TAIL, and the checksum covers the tags behind it. */
    ghost predicate Scanning(tid: nat)
      reads this
    {
      && AllOk(chk, accepted, |accepted|, tid)
      && curTag == |accepted|
      && numTags == GroupStart(accepted, |accepted|)
      && crc == Chain(chk, accepted, numTags, |accepted|)
    }

    /** One tag: the `switch` of ext4_fc_replay_scan. */
    method ScanTag(tag: Tag, tid: nat) returns (ret: Verdict)
      requires Scanning(tid)
      modifies this
      ensures expectedOff == old(expectedOff)
      ensures TagOk(chk, old(accepted) + [tag], |old(accepted)|, tid) <==> ret == Continue
      ensures ret == Continue ==> accepted == old(accepted) + [tag] && Scanning(tid)
      ensures ret != Continue ==> accepted == old(accepted) && numTags == old(numTags)
      ensures ret != Continue ==> ret == Refusal(tag, numTags)
    {
      ghost var s := accepted;
      ghost var t := s + [tag];
      GroupStartPrefix(s, [tag], |s|);
      ChainPrefix(chk, s, [tag], numTags, |s|);
      forall i | 0 <= i < |s| ensures TagOk(chk, t, i, tid) {
        TagOkPrefix(chk, s, [tag], i, tid);
      }
      match tag
      case AddRange(_, _) | DelRange(_, _, _) | Link(_) | Unlink(_) | Creat(_) | Inode(_) | Pad =>
        curTag := curTag + 1;
        crc := chk(crc, tag);
        accepted := t;
        ret := Continue;
      case Tail(t, c) =>
        curTag := curTag + 1;
        crc := chk(crc, Covered(tag));
        if t == tid && c == crc {
          numTags := curTag;
          accepted := accepted + [tag];
          ret := Continue;
        } else {
          ret := if numTags > 0 then Stop else BadCrc;
        }
        crc := 0;
      case Head(features, t) =>
        if features != 0 {
          return NotSupported;
        }
        if t != tid {
          return Invalid;
        }
        curTag := curTag + 1;
        crc := chk(crc, tag);
        accepted := accepted + [tag];
        ret := Continue;
      case Unknown(_) =>
        ret := if numTags > 0 then Stop else Canceled;
    }

    /** ext4_fc_replay_scan on one block, given as the tags its loop would visit. */
    method ScanBlock(block: seq<Tag>, off: nat, tid: nat) returns (ret: Verdict)
      requires block != []
      requires expectedOff > 0 ==> Scanning(tid)
      modifies this
      // The first block must start with a HEAD.
      ensures old(expectedOff) == 0 && !block[0].Head? ==> ret == Stop && numTags == 0
      // A block out of turn is refused, with the counters as they were.
      ensures !(old(expectedOff) == 0 && !block[0].Head?) && off != old(expectedOff) ==>
                ret == Corrupted && (old(expectedOff) > 0 ==> numTags == old(numTags))
      // Otherwise the accepted tags grow by the longest acceptable prefix of the block.
      ensures !(old(expectedOff) == 0 && !block[0].Head?) && off == old(expectedOff) ==>
                var before := if old(expectedOff) == 0 then [] else old(accepted);
                && expectedOff == old(expectedOff) + 1
                && (ret == Continue ==> Scanning(tid) && accepted == before + block)
                && (ret != Continue ==>
                      && AllOk(chk, accepted, |accepted|, tid)
                      && numTags == GroupStart(accepted, |accepted|)
                      && |before| <= |accepted| < |before| + |block|
                      && accepted <= before + block
                      && !TagOk(chk, before + block, |accepted|, tid)
                      && ret == Refusal((before + block)[|accepted|], numTags))
    {
      if expectedOff == 0 {
        numTags, expectedOff, curTag, crc, accepted := 0, 0, 0, 0, [];
        if !block[0].Head? {
          return Stop;
        }
      }
      if off != expectedOff {
        return Corrupted;
      }
      expectedOff := expectedOff + 1;
      ghost var before := accepted;
      ret := Continue;
      var i := 0;
      while i < |block|
        invariant 0 <= i <= |block|
        invariant expectedOff == old(expectedOff) + 1
        invariant Scanning(tid) && accepted == before + block[..i]
      {
        assert block[..i + 1] == block[..i] + [block[i]];
        assert before + block == (before + block[..i] + [block[i]]) + block[i + 1..];
        TagOkPrefix(chk, accepted + [block[i]], block[i + 1..], |accepted|, tid);
        ret := ScanTag(block[i], tid);
        if ret != Continue {
          return;
        }
        i := i + 1;
      }
      assert block[..i] == block;
      ret := Continue;
    }

    /** The driver: feed the blocks in order until one callback stops or fails. */
    method ScanPass(blocks: seq<seq<Tag>>, tid: nat) returns (ret: Verdict)
      requires expectedOff == 0
      requires forall b :: b in blocks ==> b != []
      modifies this
      ensures numTags == if blocks == [] then old(numTags) else Committed(chk, blocks, tid)
      ensures ret == ScanVerdict(chk, blocks, tid)
    {
      hide TagOk, AllOk, Refusal, GroupStart, OkLength, Chain;
      ret := Continue;
      ghost var done, todo := [], blocks;
      for k := 0 to |blocks|
        invariant todo == blocks[k..] && expectedOff == k && ret == Continue
        invariant k == 0 ==> numTags == old(numTags)
        invariant k > 0 ==> StartsWithHead(blocks)
        invariant k > 0 ==> Scanning(tid) && accepted == done
        invariant k == 0 ==> done == []
        invariant Flatten(blocks) == done + Flatten(todo)
      {
        assert blocks[k] in blocks;
        assert todo == [blocks[k]] + todo[1..];
        ghost var rest := Flatten(todo[1..]);
        ret := ScanBlock(blocks[k], k, tid);
        assert Flatten(blocks) == (done + blocks[k]) + rest;
        if ret != Continue {
          if k > 0 || blocks[0][0].Head? {
            StoppedAt(chk, accepted, done + blocks[k], rest, tid);
            assert Flatten(blocks)[|accepted|] == (done + blocks[k])[|accepted|];
          }
          return;
        }
        done, todo := done + blocks[k], todo[1..];
      }
      if blocks != [] {
        assert Flatten(blocks) == done;
        OkLengthIs(chk, done, |done|, tid);
      }
    }
  }

  lemma {:induction false} StoppedAt(chk: Checksum, accepted: seq<Tag>, s: seq<Tag>, rest: seq<Tag>, tid: nat)
    requires accepted <= s && |accepted| < |s|
    requires AllOk(chk, accepted, |accepted|, tid) && !TagOk(chk, s, |accepted|, tid)
    ensures OkLength(chk, s + rest, 0, tid) == |accepted|
    ensures GroupStart(s + rest, |accepted|) == GroupStart(accepted, |accepted|)
  {
    var n := |accepted|;
    var behind := s[n..] + rest;
    assert s + rest == accepted + behind;
    GroupStartPrefix(accepted, behind, n);
    forall i | 0 <= i < n ensures TagOk(chk, s + rest, i, tid) {
      TagOkPrefix(chk, accepted, behind, i, tid);
    }
    TagOkPrefix(chk, s, rest, n, tid);
    OkLengthIs(chk, s + rest, n, tid);
  }
}
