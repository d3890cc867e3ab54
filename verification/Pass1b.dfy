/** Passes 1, 1B and 1D on multiply-claimed blocks, as they change their maps step by step. */
module Pass1b {
  import opened Basics
  import opened DupBlocks
  import opened CloneSpec
  import opened PassState
  import opened PassTurns

  /** The free blocks the allocator can hand out. */
  ghost function FreeBlocks(first: nat, end: nat, found: set<nat>): set<nat> {
    set b: nat | first <= b < end && b !in found
  }

  lemma {:induction false} TakeFree(first: nat, end: nat, found: set<nat>, b: nat)
    requires first <= b < end && b !in found
    ensures |FreeBlocks(first, end, found + {b})| + 1 == |FreeBlocks(first, end, found)|
  {
    assert FreeBlocks(first, end, found + {b}) == FreeBlocks(first, end, found) - {b};
  }

  lemma {:induction false} CopyNotZero(meta: set<nat>, found: set<nat>, first: nat, copy: nat)
    requires (first > 0 || 0 in meta) && meta <= found && copy >= first && copy !in found
    ensures copy != 0
  {
  }

  class Checker {
    const meta: set<nat>     // blocks for which check_if_fs_block and check_if_fs_cluster hold
    const firstData: nat     // s_first_data_block
    const blocksCount: nat
    var files: Files
    var disk: Store
    var found: set<nat>      // block_found_map
    var dup: set<nat>        // block_dup_map
    var blockMap: set<nat>   // the filesystem's block bitmap
    var clusters: Clusters   // clstr_dict
    var inodes: map<nat, seq<nat>>  // ino_dict: the duplicate blocks of each inode

    constructor (meta: set<nat>, firstData: nat, blocksCount: nat, files: Files, disk: Store,
                 blockMap: set<nat>)
      ensures this.meta == meta && this.firstData == firstData && this.blocksCount == blocksCount
      ensures this.files == files && this.disk == disk && this.blockMap == blockMap
    {
      this.meta, this.firstData, this.blocksCount := meta, firstData, blocksCount;
      this.files, this.disk, this.blockMap := files, disk, blockMap;
      found, dup, clusters, inodes := {}, {}, map[], map[];
    }

    /** The books are right for the claims that the files make now. */
    ghost predicate Balanced()
      reads this
    {
      && (firstData > 0 || 0 in meta)
      && Accounts(clusters, dup, found, meta, Claimed(files))
    }

    ghost function Free(): set<nat>
      reads this
    {
      FreeBlocks(firstData, blocksCount, found)
    }

    /** There is a free block for every pointer that may need a copy. */
    ghost predicate EnoughFree()
      reads this
    {
      |Free()| >= TotalIn(files, dup)
    }

    // ---- Pass 1: which blocks are claimed, which more than once ----

    method MarkBlockUsed(b: nat)
      modifies this`found, this`dup
      ensures found == old(found) + {b}
      ensures dup == if b in old(found) then old(dup) + {b} else old(dup)
    {
      if b in found {
        dup := dup + {b};
      } else {
        found := found + {b};
      }
    }

    method MarkFile(f: seq<nat>, ghost done: multiset<nat>)
      requires Marked(found, dup, meta, done)
      modifies this`found, this`dup
      ensures Marked(found, dup, meta, done + multiset(f))
    {
      for k := 0 to |f|
        invariant Marked(found, dup, meta, done + multiset(f[..k]))
      {
        assert f[..k + 1] == f[..k] + [f[k]];
        if f[k] != 0 {
          MarkBlockUsed(f[k]);
        }
      }
      assert f[..|f|] == f;
    }

    /** Pass 1 marks the metadata, then every block of every file: the first bitmap holds what
        is claimed, the second what is claimed more than once. */
    method Pass1()
      modifies this`found, this`dup
      ensures Marked(found, dup, meta, Claimed(files))
    {
      found, dup := meta, {};
      ghost var done: multiset<nat>, todo := multiset{}, files;
      for i := 0 to |files|
        invariant todo == files[i..]
        invariant Claimed(files) == done + Claimed(todo)
        invariant Marked(found, dup, meta, done)
      {
        MarkFile(files[i], done);
        done, todo := done + multiset(files[i]), todo[1..];
      }
    }

    // ---- Pass 1B: who claims the duplicate blocks ----

    method AddDupe(ino: nat, b: nat)
      modifies this`clusters, this`inodes
      ensures clusters == var c := if b in old(clusters) then old(clusters)[b] else DupCluster(0, []);
                          old(clusters)[b := DupCluster(c.numBad + 1, [ino] + c.inodes)]
      ensures inodes == old(inodes)[ino := [b] + if ino in old(inodes) then old(inodes)[ino] else []]
    {
      var c := if b in clusters then clusters[b] else DupCluster(0, []);
      clusters := clusters[b := DupCluster(c.numBad + 1, [ino] + c.inodes)];
      inodes := inodes[ino := [b] + if ino in inodes then inodes[ino] else []];
    }

    /** process_pass1b_block; with a cluster ratio of 1 every block is a new logical cluster,
        so every duplicate block is submitted. */
    method ListBlock(ino: nat, b: nat, ghost seen: Files, ghost f: seq<nat>)
      requires Counted(clusters, dup, Claimed(seen + [f])) && Listed(inodes, ino, f, dup)
      requires |seen| == ino && Claimants(clusters, seen + [f])
      modifies this`clusters, this`inodes
      ensures Counted(clusters, dup, Claimed(seen + [f + [b]])) && Listed(inodes, ino, f + [b], dup)
      ensures Claimants(clusters, seen + [f + [b]])
      ensures SameBut(old(inodes), inodes, ino)
    {
      hide Counted, Claimants, Listed, Claimed;
      ListedMore(inodes, ino, f, dup, b);
      ClaimantsMore(clusters, seen, f, dup, b);
      CountedMore(clusters, dup, Claimed(seen + [f]), |seen|, b);
      ClaimedPointer(seen, f, b);
      if b != 0 && b in dup {
        AddDupe(ino, b);
      }
    }

    method ListFile(ino: nat, ghost seen: Files)
      requires ino < |files| && ino !in inodes && |seen| == ino
      requires Counted(clusters, dup, Claimed(seen)) && Claimants(clusters, seen)
      modifies this`clusters, this`inodes
      ensures Counted(clusters, dup, Claimed(seen + [files[ino]])) && Claimants(clusters, seen + [files[ino]])
      ensures Listed(inodes, ino, files[ino], dup) && SameBut(old(inodes), inodes, ino)
    {
      hide Counted, Claimants, Listed;
      var f := files[ino];
      ListingBegins(clusters, inodes, dup, seen, ino);
      for k := 0 to |f|
        invariant Counted(clusters, dup, Claimed(seen + [f[..k]])) && Claimants(clusters, seen + [f[..k]])
        invariant Listed(inodes, ino, f[..k], dup) && SameBut(old(inodes), inodes, ino)
      {
        assert f[..k + 1] == f[..k] + [f[k]];
        ListBlock(ino, f[k], seen, f[..k]);
      }
      assert f[..|f|] == f;
    }

    /** Pass 1B turns the duplicate bitmap into books that balance, and lists the duplicate
        blocks of every inode and the inodes of every duplicate block. */
    method Pass1B()
      requires Marked(found, dup, meta, Claimed(files)) && (firstData > 0 || 0 in meta)
      modifies this`clusters, this`inodes
      ensures Balanced() && AllListed(inodes, files, dup) && Claimants(clusters, files)
    {
      clusters, inodes := map[], map[];
      for i := 0 to |files|
        invariant Counted(clusters, dup, Claimed(files[..i])) && AllListed(inodes, files[..i], dup)
        invariant Claimants(clusters, files[..i])
      {
        ListNext(i);
      }
      assert files[..|files|] == files;
      BooksOpen(clusters, dup, found, meta, Claimed(files));
    }

    method ListNext(i: nat)
      requires i < |files|
      requires Counted(clusters, dup, Claimed(files[..i])) && AllListed(inodes, files[..i], dup)
      requires Claimants(clusters, files[..i])
      modifies this`clusters, this`inodes
      ensures Counted(clusters, dup, Claimed(files[..i + 1])) && AllListed(inodes, files[..i + 1], dup)
      ensures Claimants(clusters, files[..i + 1])
    {
      hide Counted, Claimants, Listed;
      ghost var before := inodes;
      assert files[..i + 1] == files[..i] + [files[i]];
      ListFile(i, files[..i]);
      AllListedMore(before, inodes, files, i, dup);
    }

    // ---- Pass 1D: cloning ----

    method DecrementBadcount(b: nat)
      requires b in clusters
      modifies this`clusters, this`dup
      ensures var n := old(clusters)[b].numBad - 1;
              && clusters == old(clusters)[b := old(clusters)[b].(numBad := n)]
              && dup == if n <= 1 && b !in meta then old(dup) - {b} else old(dup)
    {
      var c := clusters[b];
      clusters := clusters[b := c.(numBad := c.numBad - 1)];
      if clusters[b].numBad <= 0 || (clusters[b].numBad == 1 && b !in meta) {
        if b in meta {
          return;
        }
        dup := dup - {b};
      }
    }

    /** What pass 1D changes, as a value. */
    function Now(): State
      reads this
    {
      State(files, disk, found, dup, blockMap, clusters)
    }

    /** The pass that began in `s` is here where `a` was computed. */
    ghost predicate Passing(s: State, a: Left, saved: Option<nat>)
      reads this
    {
      && (firstData > 0 || 0 in meta)
      && a.free == |Free()| && InPass(meta, s, Now(), a, saved)
    }

    /** deferred_dec_badcount */
    method DeferredDec(saved: Option<nat>, ghost live: multiset<nat>)
      requires Accounts(clusters, dup, found, meta, live)
      requires saved.Some? ==>
                 saved.value in clusters && saved.value !in meta && live[saved.value] >= 2
      modifies this`clusters, this`dup
      ensures Accounts(clusters, dup, found, meta, live - Pending(saved))
      ensures dup <= old(dup) && SameLists(old(clusters), clusters)
    {
      if saved.Some? {
        DropClaim(clusters, dup, found, meta, live, saved.value);
        DecrementBadcount(saved.value);
      }
    }

    /** The deferred decrement after the pointer was stored: the books show the claims again. */
    method SettleSaved(saved: Option<nat>, ghost s: State, ghost a: Left)
      requires Passing(s, a, saved)
      modifies this`clusters, this`dup
      ensures Passing(s, a, None) && dup <= old(dup)
      ensures old(EnoughFree()) ==> EnoughFree()
    {
      hide InPass;
      ghost var c, live := Now(), Claimed(files) - a.lost;
      PassCloning(meta, s, c, a, saved);
      DeferredDec(saved, live + Pending(saved));
      assert live + Pending(saved) - Pending(saved) == live;
      PassDec(meta, s, c, Now(), a, saved);
      TotalInShrinks(files, c.dup, dup);
    }

    /** ext2fs_new_block2 with goal 0: the first block whose bit in block_found_map is clear. */
    method NewBlock() returns (r: Option<nat>)
      ensures r.Some? ==> firstData <= r.value < blocksCount && r.value !in found
      ensures r.Some? ==> forall b :: firstData <= b < r.value ==> b in found
      ensures r.None? <==> Free() == {}
    {
      var b := firstData;
      while b < blocksCount
        invariant forall c :: firstData <= c < b ==> c in found
      {
        if b !in found {
          assert b in Free();
          return Some(b);
        }
        b := b + 1;
      }
      return None;
    }

    /** The part of clone_file_block that copies block `k` of a file to the block `copy`. */
    method CopyTo(ino: nat, k: nat, copy: nat)
      requires ino < |files| && k < |files[ino]| && files[ino][k] != 0
      requires firstData <= copy < blocksCount && copy !in found && copy != 0 && Covered(Now())
      modifies this`found, this`blockMap, this`disk
      ensures Now() == Copied(old(Now()), ino, k, copy)
      ensures |Free()| + 1 == |old(Free())|
      ensures SameContents(files, old(disk), files, disk)
      ensures SameContents(files, old(disk), SetPointer(files, ino, k, copy), disk)
    {
      CopyKeeps(files, disk, found, Claimed(files), ino, k, copy);
      TakeFree(firstData, blocksCount, found, copy);
      disk := disk[copy := ReadBlock(disk, files[ino][k])];
      found := found + {copy};
      blockMap := blockMap + {copy};
    }

    /** The rest of the round for a duplicate block: allocate, copy, and let the block iterator
        store the new pointer, which may fail. */
    method CloneDup(ino: nat, k: nat, stores: bool, ghost s: State, ghost a: Left)
      returns (out: Outcome, saved: Option<nat>)
      requires ino < |files| && k < |files[ino]| && files[ino][k] in dup && files[ino][k] in s.found
      requires Passing(s, a, None) && Needs(meta, Claimed(files) - a.lost, files[ino][k])
      modifies this`found, this`blockMap, this`disk, this`files
      ensures out == if a.free == 0 then NoSpace else if stores then Done else RemapFailed
      ensures Passing(s, AfterBlock(meta, a, old(files)[ino][k], stores), if out == Done then saved else None)
      ensures SameContents(old(files), old(disk), files, disk)
      ensures if out == Done then SameButOne(old(files), files, ino, k) && files[ino][k] !in dup
              else files == old(files)
      ensures saved == if out != NoSpace && old(files)[ino][k] !in meta then Some(old(files)[ino][k]) else None
      ensures old(EnoughFree()) ==> out != NoSpace && (out == Done ==> EnoughFree())
    {
      hide InPass;
      TotalInPositive(files, ino, k, dup);
      var r := NewBlock();
      if r.None? {
        SameContentsRefl(files, disk);
        return NoSpace, None;
      }
      PassFacts(meta, s, Now(), a, None);
      CopyNotZero(meta, found, firstData, r.value);
      assert r.value in Free();
      out, saved := CloneTo(ino, k, r.value, stores, s, a);
    }

    method CloneTo(ino: nat, k: nat, copy: nat, stores: bool, ghost s: State, ghost a: Left)
      returns (out: Outcome, saved: Option<nat>)
      requires ino < |files| && k < |files[ino]| && files[ino][k] in dup && files[ino][k] in s.found
      requires Passing(s, a, None) && Needs(meta, Claimed(files) - a.lost, files[ino][k])
      requires firstData <= copy < blocksCount && copy !in found && copy != 0 && a.free > 0
      modifies this`found, this`blockMap, this`disk, this`files
      ensures out == if stores then Done else RemapFailed
      ensures Passing(s, AfterBlock(meta, a, old(files)[ino][k], stores), if out == Done then saved else None)
      ensures SameContents(old(files), old(disk), files, disk)
      ensures if out == Done then SameButOne(old(files), files, ino, k) && files[ino][k] !in dup
              else files == old(files)
      ensures saved == if old(files)[ino][k] !in meta then Some(old(files)[ino][k]) else None
      ensures old(EnoughFree()) && out == Done ==> EnoughFree()
    {
      hide InPass;
      ghost var c := Now();
      saved := if files[ino][k] in meta then None else Some(files[ino][k]);
      PassFacts(meta, s, c, a, None);
      CopyTo(ino, k, copy);
      if !stores {
        PassCopied(meta, s, c, a, ino, k, copy);
        return RemapFailed, saved;
      }
      PassStored(meta, s, c, a, ino, k, copy);
      StoredOne(files, ino, k, copy, dup);
      files := SetPointer(files, ino, k, copy);
      out := Done;
    }

    /** One round of the clone: the callback clone_file_block, and the store behind it. */
    method CloneBlock(ino: nat, k: nat, saved: Option<nat>, stores: bool, ghost s: State, ghost a: Left)
      returns (out: Outcome, saved': Option<nat>)
      requires ino < |files| && k < |files[ino]| && Passing(s, a, saved)
      requires files[ino][k] == 0 || files[ino][k] in s.found
      modifies this`clusters, this`dup, this`found, this`blockMap, this`disk, this`files
      ensures out == BlockOutcome(meta, a, old(files)[ino][k], stores)
      ensures Passing(s, AfterBlock(meta, a, old(files)[ino][k], stores), if out == Done then saved' else None)
      ensures dup <= old(dup) && SameContents(old(files), old(disk), files, disk)
      ensures if out == Done then SameButOne(old(files), files, ino, k) && (files[ino][k] == 0 || files[ino][k] !in dup)
              else files == old(files)
      ensures out == RemapFailed ==>
                && saved' == (if files[ino][k] !in meta then Some(files[ino][k]) else None)
                && files[ino][k] in dup
      ensures out == NoSpace ==> saved'.None?
      ensures old(EnoughFree()) ==> out != NoSpace && (out == Done ==> EnoughFree())
    {
      hide InPass;
      SettleSaved(saved, s, a);
      NeedsIsDup(meta, s, Now(), a, ino, k);
      if files[ino][k] == 0 || files[ino][k] !in dup {
        SameContentsRefl(files, disk);
        return Done, None;
      }
      out, saved' := CloneDup(ino, k, stores, s, a);
    }

    /** clone_file: what is left afterwards is what CloneFrom computes. */
    method CloneFile(ino: nat, stores: nat -> bool, ghost s: State, ghost a: Left)
      returns (failed: bool)
      requires ino < |files| && Passing(s, a, None) && Known(s, files[ino])
      modifies this`clusters, this`dup, this`found, this`blockMap, this`disk, this`files
      ensures var (c, stop) := CloneFrom(meta, a, old(files)[ino], 0, stores);
              Passing(s, c, None) && (failed <==> stop < |old(files)[ino]|)
      ensures dup <= old(dup) && SameButFile(old(files), files, ino)
      ensures SameContents(old(files), old(disk), files, disk)
      ensures !failed ==> Unshared(files[ino], dup)
      ensures old(EnoughFree()) && (forall k: nat :: stores(k)) ==> !failed && EnoughFree()
    {
      hide InPass;
      ghost var c;
      var out, saved;
      CloneShrinks(meta, a, files[ino], 0, stores);
      out, saved, c := CloneBlocks(ino, stores, s, a);
      if out == Done {
        SettleSaved(saved, s, c);
      } else {
        AbortClone(saved, s, c);
      }
      failed := out != Done;
    }

    /** clone_file where the books are right: they still are afterwards unless there is a pointer
        that needs a copy and is not to metadata, for which there is a free block but the store
        fails, all such stores before it having succeeded. */
    method CloneBalanced(ino: nat, stores: nat -> bool) returns (failed: bool)
      requires ino < |files| && Balanced()
      modifies this`clusters, this`dup, this`found, this`blockMap, this`disk, this`files
      ensures Balanced() <==>
                !exists k: nat :: LosesAt(meta, old(Claimed(files)), old(files)[ino], |old(Free())|, stores, k)
    {
      hide InPass, CloneFrom, LosesAt;
      ghost var s, f, a := Now(), files[ino], Left(Claimed(files), multiset{}, |Free()|);
      PassBegins(meta, s, a.free);
      KnownAtStart(s, ino);
      ClaimedUpdate(files, ino, []);
      failed := CloneFile(ino, stores, s, a);
      CloneLoses(meta, a.claims, a.free, f, stores);
      ghost var c := CloneFrom(meta, a, f, 0, stores).0;
      BooksRight(meta, s, Now(), c);
      PassFacts(meta, s, Now(), c, None);
      LostKnown(meta, s, Now(), c);
    }

    /** The block iteration of clone_file, up to its end or the first failure. */
    method CloneBlocks(ino: nat, stores: nat -> bool, ghost s: State, ghost a: Left)
      returns (out: Outcome, saved: Option<nat>, ghost c: Left)
      requires ino < |files| && Passing(s, a, None) && Known(s, files[ino])
      modifies this`clusters, this`dup, this`found, this`blockMap, this`disk, this`files
      ensures Passing(s, c, if out == Done then saved else None)
      ensures var (r, stop) := CloneFrom(meta, a, old(files)[ino], 0, stores);
              && (out == Done <==> stop == |old(files)[ino]|)
              && r == if out != Done && saved.Some? then c.(lost := c.lost + multiset{saved.value}) else c
      ensures out != Done && saved.Some? ==>
                saved.value in dup && saved.value !in meta
      ensures dup <= old(dup) && SameButFile(old(files), files, ino)
      ensures SameContents(old(files), old(disk), files, disk)
      ensures out == Done ==> Unshared(files[ino], dup)
      ensures old(EnoughFree()) && (forall k: nat :: stores(k)) ==> out == Done && EnoughFree()
    {
      hide InPass, CloneFrom, BlockOutcome, AfterBlock;
      ghost var f := files[ino];
      saved, c := None, a;
      SameContentsRefl(files, disk);
      var k := 0;
      while k < |files[ino]|
        invariant SameButFile(old(files), files, ino) && 0 <= k <= |files[ino]| == |f|
        invariant forall j :: k <= j < |f| ==> files[ino][j] == f[j]
        invariant Passing(s, c, saved)
        invariant CloneFrom(meta, a, f, 0, stores) == CloneFrom(meta, c, f, k, stores)
        invariant dup <= old(dup) && SameContents(old(files), old(disk), files, disk)
        invariant Unshared(files[ino][..k], dup)
        invariant old(EnoughFree()) && (forall j: nat :: stores(j)) ==> EnoughFree()
      {
        ghost var before := files[ino];
        CloneStep(meta, c, f, k, stores);
        out, saved := CloneBlock(ino, k, saved, stores(k), s, c);
        c := AfterBlock(meta, c, f[k], stores(k));
        if out != Done {
          return;
        }
        UnsharedMore(before, files[ino], k, dup);
        k := k + 1;
      }
      assert files[ino][..k] == files[ino];
      CloneEnds(meta, c, f, stores);
      out := Done;
    }

    /** After the iteration was cut short, clone_file still does the deferred decrement. */
    method AbortClone(saved: Option<nat>, ghost s: State, ghost a: Left)
      requires Passing(s, a, None)
      requires saved.Some? ==>
                 saved.value in dup && saved.value !in meta
      modifies this`clusters, this`dup
      ensures Passing(s, if saved.Some? then a.(lost := a.lost + multiset{saved.value}) else a, None)
      ensures dup <= old(dup)
    {
      hide InPass;
      ghost var c, live := Now(), Claimed(files) - a.lost;
      PassShows(meta, s, c, a);
      PassFacts(meta, s, c, a, None);
      if saved.Some? {
        DeferredDec(saved, live);
        PassLoses(meta, s, c, Now(), a, saved.value);
      }
    }

    // ---- Pass 1D: deleting ----

    /** delete_file_block: drop a claim; the block is freed if its duplicate bit is clear, which
        means that the books show no other claim. */
    method DeleteBlock(b: nat, ghost live: multiset<nat>)
      modifies this`clusters, this`dup, this`blockMap
      ensures dup <= old(dup) && SameLists(old(clusters), clusters)
      ensures (b in live || b !in meta) && old(Accounts(clusters, dup, found, meta, live)) ==>
                && Accounts(clusters, dup, found, meta, live - multiset{b})
                && blockMap == (if b != 0 && b !in meta && live[b] <= 1 then old(blockMap) - {b}
                                else old(blockMap))
    {
      ghost var books := Accounts(clusters, dup, found, meta, live) && (b in live || b !in meta);
      if b == 0 {
        if books { DropHole(clusters, dup, found, meta, live); }
        return;
      }
      if b in dup {
        if b in clusters {
          if books {
            if b in meta {
              DropMetaClaim(clusters, dup, found, meta, live, b, clusters[b].numBad - 1);
            } else {
              DropClaim(clusters, dup, found, meta, live, b);
            }
          }
          DecrementBadcount(b);
        }
      } else {
        if books { DropLastClaim(clusters, dup, found, meta, live, b); }
        blockMap := blockMap - {b};
      }
    }

    /** The block iteration of delete_file, where the books show the claims `all`: of the blocks
        of the file exactly those are freed of which they show no claim afterwards. */
    method DeleteBlocks(f: seq<nat>, ghost all: multiset<nat>)
      modifies this`clusters, this`dup, this`blockMap
      ensures dup <= old(dup) && SameLists(old(clusters), clusters)
      ensures MetaShown(f, all, meta) && old(Accounts(clusters, dup, found, meta, all)) ==>
                && Accounts(clusters, dup, found, meta, all - multiset(f))
                && Freed(blockMap, old(blockMap), meta, f, all - multiset(f))
    {
      assert all - multiset(f[..0]) == all;
      for k := 0 to |f|
        invariant dup <= old(dup) && SameLists(old(clusters), clusters)
        invariant MetaShown(f, all, meta) && old(Accounts(clusters, dup, found, meta, all)) ==>
                    Deleting(f[..k], old(blockMap), all - multiset(f[..k]))
      {
        DeleteNext(f, k, old(blockMap), all);
      }
      assert f[..|f|] == f;
    }

    /** The books and the bitmap after the claims `done` were dropped, `live` being left. */
    ghost predicate Deleting(done: seq<nat>, before: set<nat>, live: multiset<nat>)
      reads this
    {
      && Accounts(clusters, dup, found, meta, live)
      && Freed(blockMap, before, meta, done, live)
    }

    method DeleteNext(f: seq<nat>, k: nat, ghost before: set<nat>, ghost all: multiset<nat>)
      requires k < |f|
      modifies this`clusters, this`dup, this`blockMap
      ensures dup <= old(dup) && SameLists(old(clusters), clusters)
      ensures MetaShown(f, all, meta) && old(Deleting(f[..k], before, all - multiset(f[..k]))) ==>
                Deleting(f[..k + 1], before, all - multiset(f[..k + 1]))
    {
      ghost var live := all - multiset(f[..k]);
      ghost var was, mid := Deleting(f[..k], before, live), blockMap;
      StillShown(all, f, k, meta);
      DeleteBlock(f[k], live);
      if was && MetaShown(f, all, meta) {
        FreedMore(mid, blockMap, before, meta, f[..k], live, f[k]);
      }
    }

    /** delete_file: what is left afterwards is what DeleteRest computes, the clone having left
        `a` of `a0` and the file's pointers `f` being partly moved. */
    method DeleteFile(ino: nat, ghost f: seq<nat>, ghost s: State, ghost a0: Left, ghost a: Left)
      requires ino < |files| && Passing(s, a, None)
      requires Parted(s, multiset(files[ino]), multiset(f), a0, a)
      modifies this`clusters, this`dup, this`blockMap, this`files
      ensures files == old(files)[ino := []] && dup <= old(dup)
      ensures Passing(s, DeleteRest(a0, a, f), None)
      ensures Freed(blockMap, old(blockMap), meta, old(files)[ino],
                    old(Claimed(files)) - a.lost - multiset(old(files)[ino]))
    {
      hide InPass;
      ghost var c, live := Now(), Claimed(files) - a.lost;
      PassShows(meta, s, c, a);
      PassFacts(meta, s, c, a, None);
      AllMetaShown(files, ino, a.lost, meta);
      DeleteBlocks(files[ino], live);
      files := files[ino := []];
      PassDeleted(meta, s, c, Now(), a0, a, ino, f);
    }

    // ---- Pass 1D ----

    /** Add the claimants of one block to the list of inodes that share with `ino`, once each. */
    method MergeShared(ino: nat, others: seq<nat>, shared: seq<nat>) returns (r: seq<nat>)
      requires Distinct(shared)
      ensures Distinct(r)
      ensures forall i :: i in r <==> i in shared || (i in others && i != ino)
    {
      r := shared;
      for k := 0 to |others|
        invariant Distinct(r)
        invariant forall i :: i in r <==> i in shared || (i in others[..k] && i != ino)
      {
        assert others[..k + 1] == others[..k] + [others[k]];
        if others[k] != ino && others[k] !in r {
          r := r + [others[k]];
        }
      }
      assert others[..|others|] == others;
    }

    /** The look at one inode in pass1d: may it stay as it is, and with whom does it share? */
    method Inspect(ino: nat, metaSeen: bool)
      returns (fileOk: bool, shared: seq<nat>, metaSeen': bool)
      requires ino in inodes
      ensures fileOk <==> forall b :: b in inodes[ino] && b in clusters ==>
                            clusters[b].numBad <= 1 && b !in meta
      ensures metaSeen' <==> metaSeen || exists b :: b in inodes[ino] && b in clusters && b in meta
      ensures Distinct(shared)
      ensures forall i :: i in shared <==>
                i != ino && exists b :: b in inodes[ino] && b in clusters && i in clusters[b].inodes
    {
      var list := inodes[ino];
      fileOk, shared, metaSeen' := true, [], metaSeen;
      for k := 0 to |list|
        invariant fileOk <==> forall b :: b in list[..k] && b in clusters ==>
                                clusters[b].numBad <= 1 && b !in meta
        invariant metaSeen' <==> metaSeen || exists b :: b in list[..k] && b in clusters && b in meta
        invariant Distinct(shared)
        invariant forall i :: i in shared <==>
                    i != ino && exists b :: b in list[..k] && b in clusters && i in clusters[b].inodes
      {
        assert list[..k + 1] == list[..k] + [list[k]];
        if list[k] in clusters {
          var q := clusters[list[k]];
          if q.numBad > 1 {
            fileOk := false;
          }
          if list[k] in meta {
            fileOk, metaSeen' := false, true;
          }
          shared := MergeShared(ino, q.inodes, shared);
        }
      }
      assert list[..|list|] == list;
    }

    /** The clone of one inode, and its deletion if the clone failed or was declined. */
    method CloneOrDelete(ino: nat, cloneYes: bool, deleteYes: bool, stores: nat -> bool,
                         ghost s: State, ghost a: Left)
      requires ino < |files| && Passing(s, a, None) && Known(s, files[ino])
      modifies this`clusters, this`dup, this`found, this`blockMap, this`disk, this`files
      ensures Passing(s, CloneOrDeleted(meta, a, old(files)[ino], cloneYes, deleteYes, stores), None)
      ensures dup <= old(dup) && SameButFile(old(files), files, ino)
      ensures KeptOrDeleted(old(files), old(disk), files, disk)
      ensures cloneYes && deleteYes ==> Unshared(files[ino], dup)
      ensures !cloneYes && deleteYes ==> files == old(files)[ino := []]
      ensures !deleteYes ==> Answered(old(files), old(disk), files, disk, ino, cloneYes)
      ensures old(EnoughFree()) && cloneYes && (forall k: nat :: stores(k)) ==>
                EnoughFree() && SameContents(old(files), old(disk), files, disk)
    {
      hide InPass, DeleteRest, CloneFrom, Freed, Matches, Claimed, Contents, Covered, SameLists;
      ghost var f, c := files[ino], a;
      ghost var files0 := files;
      SameContentsRefl(files, disk);
      PassFacts(meta, s, Now(), a, None);
      SameParts(s, files, files, ino, a, a);
      if cloneYes {
        var failed := CloneFile(ino, stores, s, a);
        c := CloneFrom(meta, a, f, 0, stores).0;
        CloneShrinks(meta, a, f, 0, stores);
        PassFacts(meta, s, Now(), c, None);
        SameParts(s, files0, files, ino, a, c);
        if !failed {
          return;
        }
      }
      if deleteYes {
        DeleteFile(ino, f, s, a, c);
      }
    }

    /** What pass1d does with one inode: leave it, clone it, delete it if the clone failed or was
        declined, or leave it unresolved.  It is left, whatever the answers, if none of its blocks
        is metadata or has another claim that the counters show. */
    method ResolveInode(ino: nat, metaSeen: bool, ghost p: Plan, cloneYes: bool, deleteYes: bool,
                        stores: nat -> bool, ghost s: State, ghost a: Left)
      returns (metaSeen': bool)
      requires ino < |files| && ino in inodes && Passing(s, a, None)
      requires p.meta == meta && p.lists == s.clusters && p.inodes == inodes
      requires cloneYes == p.cloneYes(ino) && deleteYes == p.deleteYes(ino) && stores == Of(p.stores, ino)
      requires Listed(inodes, ino, files[ino], s.dup) && Known(s, files[ino])
      requires Opened(meta, s) && files[ino] == s.files[ino]
      modifies this`clusters, this`dup, this`found, this`blockMap, this`disk, this`files
      ensures Alone(meta, old(Claimed(files)) - a.lost, old(files)[ino]) && Once(old(files)[ino]) ==>
                Now() == old(Now())
      ensures !Alone(meta, old(Claimed(files)) - a.lost, old(files)[ino]) && !cloneYes && deleteYes ==>
                files == old(files)[ino := []]
      ensures !deleteYes ==> Answered(old(files), old(disk), files, disk, ino, cloneYes)
      ensures metaSeen' == (metaSeen || ListsMeta(p, ino))
      ensures Passing(s, ResolveOne(p, a, old(files)[ino], ino, metaSeen'), None)
      ensures dup <= old(dup) && SameButFile(old(files), files, ino)
      ensures KeptOrDeleted(old(files), old(disk), files, disk)
      ensures cloneYes && deleteYes ==> Unshared(files[ino], dup)
      ensures old(EnoughFree()) && cloneYes && (forall k: nat :: stores(k)) ==>
                EnoughFree() && SameContents(old(files), old(disk), files, disk)
    {
      hide InPass;
      SameContentsRefl(files, disk);
      var fileOk, shared;
      fileOk, shared, metaSeen' := Inspect(ino, metaSeen);
      InspectMeans(p, s, Now(), a, ino, fileOk, shared);
      PassShows(meta, s, Now(), a);
      PassFacts(meta, s, Now(), a, None);
      LooksAlone(p, s, Now(), a, ino);
      AloneShares(p, s, Now(), a, ino);
      if fileOk && (if metaSeen' then |shared| + 1 else |shared|) != 0 {
        OkMeansUnshared(clusters, dup, found, meta, Claimed(files) - a.lost, inodes, ino, files[ino], s.dup);
        return;
      }
      CloneOrDelete(ino, cloneYes, deleteYes, stores, s, a);
    }

    /** Pass 1D over all inodes, in order; `stores` tells which pointers to copies can be stored.
        What is left is what RunFrom computes from the state before the pass, and decides all:
        the books are right if and only if each lost claim is the only one on its block; a
        block marked and claimed at the start is still marked if and only if it is metadata or
        the claims left exceed the lost ones; and if every question is answered yes, ownership
        is exclusive if and only if the books are right.

        A file whose deletion is declined keeps its contents, and its pointers too if the clone is
        declined as well.  A file of which no block is metadata or claimed again at its turn keeps its pointers,
        whatever the answers.  If every clone is declined and every deletion accepted, the files
        that stay are those that share no block with a later file, with themselves or with the
        metadata. */
    method Pass1D(cloneYes: nat -> bool, deleteYes: nat -> bool, stores: (nat, nat) -> bool)
      returns (ghost end: Left)
      requires Balanced() && AllListed(inodes, files, dup) && Claimants(clusters, files)
      modifies this`clusters, this`dup, this`found, this`blockMap, this`disk, this`files
      ensures |files| == |old(files)|
      ensures forall i :: 0 <= i < |files| && !deleteYes(i) ==>
                Contents(disk, files[i]) == Contents(old(disk), old(files)[i])
      ensures forall i :: 0 <= i < |files| && !cloneYes(i) && !deleteYes(i) ==> files[i] == old(files)[i]
      ensures forall i :: 0 <= i < |files| ==>
                (AloneAt(meta, old(files), files, i) ==> files[i] == old(files)[i])
      ensures (forall i: nat :: !cloneYes(i) && deleteYes(i)) ==>
                forall i :: 0 <= i < |files| ==>
                  && files[i] == (if LastClaimant(meta, old(files), i) then old(files)[i] else [])
                  && (files[i] == old(files)[i] <==> LastClaimant(meta, old(files), i))
      ensures end == RunFrom(Plan(meta, old(clusters), inodes, cloneYes, deleteYes, stores), old(files),
                             Left(Claimed(old(files)), multiset{}, |old(Free())|), 0, false)
      ensures Passing(old(Now()), end, None)
      ensures Balanced() <==> forall b :: b in end.lost ==> end.claims[b] == 1
      ensures forall b :: b != 0 && b in Claimed(old(files)) && b in old(blockMap) ==>
                (b in blockMap <==> b in meta || end.claims[b] > end.lost[b])
      ensures KeptOrDeleted(old(files), old(disk), files, disk)
      ensures Untouched(old(files), files, old(dup))
      ensures (forall i: nat :: cloneYes(i) && deleteYes(i)) ==> (Exclusive(Claimed(files), meta) <==> Balanced())
      ensures old(EnoughFree()) && (forall i: nat :: cloneYes(i)) && (forall i: nat, k: nat :: stores(i, k)) ==>
                SameContents(old(files), old(disk), files, disk)
    {
      hide InPass, AloneAt, LastClaimant, Claimants, KeptAlone, KeptOnlyAlone, Accounts, AllListed, AllAnswered;
      hide Walked, RunFrom, KeptOrDeleted, Untouched, Exclusive, SameContents, Claimed;
      ghost var s, p := Now(), Plan(meta, clusters, inodes, cloneYes, deleteYes, stores);
      end := PassLoop(p, cloneYes, deleteYes, stores);
      PassEnds(meta, s, Now(), end, p);
      WalkEnds(s, Now(), p);
      AllTurns(meta, s.files, files);
      AnswersEnd(p, s.files, s.disk, files, disk);
    }

    /** The loop of pass1d over the inodes. */
    method PassLoop(ghost p: Plan, cloneYes: nat -> bool, deleteYes: nat -> bool, stores: (nat, nat) -> bool)
      returns (ghost end: Left)
      requires Balanced() && AllListed(inodes, files, dup) && Claimants(clusters, files)
      requires p == Plan(meta, clusters, inodes, cloneYes, deleteYes, stores)
      modifies this`clusters, this`dup, this`found, this`blockMap, this`disk, this`files
      ensures Turned(p, old(files), files, |old(files)|, end)
      ensures AllAnswered(p, old(files), old(disk), files, disk, |old(files)|)
      ensures end == RunFrom(p, old(files), Left(Claimed(old(files)), multiset{}, |old(Free())|), 0, false)
      ensures Passing(old(Now()), end, None) && Walked(old(Now()), Now(), |old(files)|, p)
      ensures old(EnoughFree()) && (forall i: nat :: cloneYes(i)) && (forall i: nat, k: nat :: stores(i, k)) ==>
                SameContents(old(files), old(disk), files, disk)
    {
      hide InPass, Walked, SameContents, RunFrom, Opened, Turned, Turn, Answered, AllAnswered, Claimants,
        Accounts, AllListed, Claimed, KeptOrDeleted;
      ghost var s := Now();
      OpenedNow(meta, s);
      end := Left(Claimed(files), multiset{}, |Free()|);
      NoTurns(p, files, end);
      AnswersBegin(p, files, disk);
      PassBegins(meta, s, end.free);
      SameContentsRefl(files, disk);
      WalkBegins(s, p);
      var metaSeen := false;
      RunEnds(p, s.files);
      for i := 0 to |files|
        invariant |files| == |s.files|
        invariant Passing(s, end, None) && Walked(s, Now(), i, p)
        invariant Turned(p, s.files, files, i, end) && AllAnswered(p, s.files, s.disk, files, disk, i)
        invariant RunFrom(p, s.files, Left(Claimed(s.files), multiset{}, |old(Free())|), 0, false)
               == RunFrom(p, s.files, end, i, metaSeen)
        invariant old(EnoughFree()) && (forall j: nat :: cloneYes(j)) && (forall j: nat, k: nat :: stores(j, k)) ==>
                    EnoughFree() && SameContents(s.files, s.disk, files, disk)
      {
        ghost var files0, disk0 := files, disk;
        WalkedSame(s, Now(), i, p);
        ghost var left := end;
        metaSeen, end := PassOne(i, metaSeen, p, cloneYes, deleteYes, stores, s, end);
        TurnedMore(p, s.files, files0, files, i, left, end);
        TurnChanges(p, files0, files, i, left, end);
        AnsweredMore(p, s.files, s.disk, files0, disk0, files, disk, i);
        SameContentsTrans(s.files, s.disk, files0, disk0, files, disk);
      }
    }

    /** One round of Pass1D. */
    method PassOne(i: nat, metaSeen: bool, ghost p: Plan, cloneYes: nat -> bool, deleteYes: nat -> bool,
                   stores: (nat, nat) -> bool, ghost s: State, ghost a: Left)
      returns (metaSeen': bool, ghost a': Left)
      requires i < |files| == |s.files| && Passing(s, a, None) && Walked(s, Now(), i, p)
      requires p == Plan(meta, s.clusters, inodes, cloneYes, deleteYes, stores)
      requires AllListed(inodes, s.files, s.dup) && Opened(meta, s)
      modifies this`clusters, this`dup, this`found, this`blockMap, this`disk, this`files
      ensures Turn(p, old(files), files, i, a, a')
      ensures !deleteYes(i) ==> Answered(old(files), old(disk), files, disk, i, cloneYes(i))
      ensures KeptOrDeleted(old(files), old(disk), files, disk)
      ensures |files| == |s.files| && Passing(s, a', None) && Walked(s, Now(), i + 1, p)
      ensures RunFrom(p, s.files, a, i, metaSeen) == RunFrom(p, s.files, a', i + 1, metaSeen')
      ensures old(EnoughFree()) && cloneYes(i) && (forall k: nat :: stores(i, k)) ==>
                EnoughFree() && SameContents(old(files), old(disk), files, disk)
    {
      hide InPass;
      ghost var c := Now();
      metaSeen', a' := metaSeen, a;
      SameContentsRefl(files, disk);
      PassFacts(meta, s, c, a, None);
      KnownAtStart(s, i);
      WalkedSame(s, c, i, p);
      NoneLost(Claimed(files), a.lost);
      if i !in inodes {
        UnlistedUnshared(inodes, i, files[i], s.dup, dup);
        UnlistedAlone(p, s, c, a, i);
      } else {
        ListedShares(inodes, i, files[i], s.dup);
        if Alone(meta, Claimed(files), files[i]) {
          AloneOnce(meta, files, i, a.lost);
        }
        DeletedLosesNothing(p, a, s.files[i], i);
        metaSeen' := ResolveInode(i, metaSeen, p, cloneYes(i), deleteYes(i), Of(stores, i), s, a);
        a' := ResolveOne(p, a, s.files[i], i, metaSeen');
      }
      WalkedMore(s, c, Now(), i, p);
    }
  }

  /** The three passes from scratch, whatever the files claim, if every question is answered yes
      and every pointer can be stored: no block is claimed twice in the end, what is left of the
      files reads as before, and every block still claimed is marked if it was.  With enough
      free blocks for the copies every file is kept. */
  method ResolveAll(c: Checker)
    requires c.firstData > 0 || 0 in c.meta
    modifies c
    ensures c.Balanced() && Exclusive(Claimed(c.files), c.meta)
    ensures KeptOrDeleted(old(c.files), old(c.disk), c.files, c.disk)
    ensures StillMarked(old(c.files), old(c.blockMap), c.files, c.blockMap)
    ensures EnoughAtStart(c.meta, c.firstData, c.blocksCount, old(c.files)) ==>
              SameContents(old(c.files), old(c.disk), c.files, c.disk)
  {
    Prepare(c);
    AcceptAll(c);
  }

  /** The passes that only find out what is claimed. */
  method Prepare(c: Checker)
    requires c.firstData > 0 || 0 in c.meta
    modifies c`found, c`dup, c`clusters, c`inodes
    ensures c.Balanced() && AllListed(c.inodes, c.files, c.dup) && Claimants(c.clusters, c.files)
    ensures EnoughAtStart(c.meta, c.firstData, c.blocksCount, c.files) <==> c.EnoughFree()
  {
    c.Pass1();
    MarkedSets(c.found, c.dup, c.meta, c.files);
    c.Pass1B();
  }

  /** Pass 1D with every question answered yes and every pointer stored. */
  method AcceptAll(c: Checker)
    requires c.Balanced() && AllListed(c.inodes, c.files, c.dup) && Claimants(c.clusters, c.files)
    modifies c`clusters, c`dup, c`found, c`blockMap, c`disk, c`files
    ensures c.Balanced() && Exclusive(Claimed(c.files), c.meta)
    ensures KeptOrDeleted(old(c.files), old(c.disk), c.files, c.disk)
    ensures StillMarked(old(c.files), old(c.blockMap), c.files, c.blockMap)
    ensures old(c.EnoughFree()) ==> SameContents(old(c.files), old(c.disk), c.files, c.disk)
  {
    hide InPass;
    var yes, stores := _ => true, (_, _) => true;
    ghost var s := c.Now();
    ghost var p, a := Plan(c.meta, c.clusters, c.inodes, yes, yes, stores),
                      Left(Claimed(c.files), multiset{}, |c.Free()|);
    RunLosesNothing(p, c.files, a, 0, false);
    ghost var end := c.Pass1D(yes, yes, stores);
    PassFacts(c.meta, s, c.Now(), end, None);
    NothingLost(s, c.Now(), end, c.meta);
  }

  /** A block marked and claimed at the start that is still claimed is still marked. */
  ghost predicate StillMarked(files: Files, marks: set<nat>, files': Files, marks': set<nat>) {
    forall b :: b != 0 && b in Claimed(files') && b in Claimed(files) && b in marks ==> b in marks'
  }

  lemma {:induction false} NothingLost(s: State, c: State, a: Left, meta: set<nat>)
    requires Covered(s) && Matches(s, Claimed(c.files), a) && a.lost == multiset{}
    requires forall b :: b != 0 && b in Claimed(s.files) && b in s.marks ==>
               (b in c.marks <==> b in meta || a.claims[b] > a.lost[b])
    ensures StillMarked(s.files, s.marks, c.files, c.marks)
  {
  }

  /** No block is claimed twice, and none of the claimed blocks is metadata. */
  ghost predicate Exclusive(claimed: multiset<nat>, meta: set<nat>) {
    forall b :: b in claimed && b != 0 ==> claimed[b] == 1 && b !in meta
  }

  /** Every file reads as it did, or is gone. */
  ghost predicate KeptOrDeleted(files: Files, disk: Store, files': Files, disk': Store) {
    && |files'| == |files|
    && forall i :: 0 <= i < |files| ==>
         files'[i] == [] || Contents(disk', files'[i]) == Contents(disk, files[i])
  }

  lemma {:induction false} KeptTrans(f0: Files, d0: Store, f1: Files, d1: Store, f2: Files, d2: Store)
    requires KeptOrDeleted(f0, d0, f1, d1) && KeptOrDeleted(f1, d1, f2, d2)
    ensures KeptOrDeleted(f0, d0, f2, d2)
  {
    forall i | 0 <= i < |f0| ensures f2[i] == [] || Contents(d2, f2[i]) == Contents(d0, f0[i]) {
      assert |Contents(d2, f2[i])| == |f2[i]| && |Contents(d1, f1[i])| == |f1[i]|;
    }
  }

  /** An inode whose listed blocks all look exclusive has no duplicate block. */
  lemma {:induction false} OkMeansUnshared(clusters: Clusters, dup: set<nat>, found: set<nat>, meta: set<nat>,
                        live: multiset<nat>, inodes: map<nat, seq<nat>>, ino: nat, f: seq<nat>,
                        dup0: set<nat>)
    requires Accounts(clusters, dup, found, meta, live) && dup <= dup0
    requires ino in inodes && Listed(inodes, ino, f, dup0)
    requires forall b :: b in inodes[ino] && b in clusters ==>
               clusters[b].numBad <= 1 && b !in meta
    ensures Unshared(f, dup)
  {
    forall k | 0 <= k < |f| ensures f[k] == 0 || f[k] !in dup {
      assert f[k] in f;
    }
  }

  lemma {:induction false} UnlistedUnshared(inodes: map<nat, seq<nat>>, ino: nat, f: seq<nat>, dup0: set<nat>,
                         dup: set<nat>)
    requires ino !in inodes && Listed(inodes, ino, f, dup0) && dup <= dup0
    ensures Unshared(f, dup)
  {
    forall k | 0 <= k < |f| ensures f[k] == 0 || f[k] !in dup {
      assert f[k] in f;
    }
  }

  lemma {:induction false} ListedShares(inodes: map<nat, seq<nat>>, ino: nat, f: seq<nat>, dup: set<nat>)
    requires ino in inodes && Listed(inodes, ino, f, dup)
    ensures !Unshared(f, dup)
  {
  }

  /** A file without a pointer to a duplicate block is left alone. */
  ghost predicate Untouched(files: Files, files': Files, dup: set<nat>) {
    && |files'| == |files|
    && forall i :: 0 <= i < |files| && Unshared(files[i], dup) ==> files'[i] == files[i]
  }

  lemma {:induction false} UnsharedExclusive(clusters: Clusters, dup: set<nat>, found: set<nat>, meta: set<nat>,
                          files: Files)
    requires Accounts(clusters, dup, found, meta, Claimed(files))
    requires forall i :: 0 <= i < |files| ==> Unshared(files[i], dup)
    ensures Exclusive(Claimed(files), meta)
  {
    forall b | b in Claimed(files) && b != 0 ensures Claimed(files)[b] == 1 && b !in meta {
      ClaimedBy(files, b);
      ClearMeansExclusive(clusters, dup, found, meta, Claimed(files), b);
    }
  }

  ghost predicate Distinct(s: seq<nat>) {
    forall i, j :: 0 <= i < j < |s| ==> s[i] != s[j]
  }

  /** The books show every claim of the file on metadata. */
  ghost predicate MetaShown(f: seq<nat>, all: multiset<nat>, meta: set<nat>) {
    forall b :: b in meta ==> multiset(f)[b] <= all[b]
  }

  lemma {:induction false} AllMetaShown(files: Files, i: nat, lost: multiset<nat>, meta: set<nat>)
    requires i < |files| && forall b :: b in lost ==> b !in meta
    ensures MetaShown(files[i], Claimed(files) - lost, meta)
  {
    ClaimedUpdate(files, i, []);
    forall b | b in meta ensures multiset(files[i])[b] <= (Claimed(files) - lost)[b] {
      assert b !in lost;
    }
  }

  lemma {:induction false} StillShown(all: multiset<nat>, f: seq<nat>, k: nat, meta: set<nat>)
    requires k < |f|
    ensures MetaShown(f, all, meta) && f[k] in meta ==> f[k] in all - multiset(f[..k])
    ensures f[..k + 1] == f[..k] + [f[k]]
    ensures all - multiset(f[..k + 1]) == all - multiset(f[..k]) - multiset{f[k]}
  {
    assert f == f[..k] + [f[k]] + f[k + 1..];
    assert f[..k + 1] == f[..k] + [f[k]];
    assert multiset(f)[f[k]] >= multiset(f[..k])[f[k]] + 1;
  }

  lemma {:induction false} FreedMore(mid: set<nat>, after: set<nat>, before: set<nat>, meta: set<nat>, f: seq<nat>,
                  live: multiset<nat>, b: nat)
    requires Freed(mid, before, meta, f, live)
    requires after == if b != 0 && b !in meta && live[b] <= 1 then mid - {b} else mid
    ensures Freed(after, before, meta, f + [b], live - multiset{b})
  {
    assert forall c :: c in f + [b] <==> c in f || c == b;
    assert forall c :: c in live - multiset{b} <==> c in live && (c == b ==> live[b] > 1);
  }

  /** No pointer of the file is to a duplicate block. */
  ghost predicate Unshared(f: seq<nat>, dup: set<nat>) {
    forall k :: 0 <= k < |f| ==> f[k] == 0 || f[k] !in dup
  }

  lemma {:induction false} UnsharedMore(f: seq<nat>, f': seq<nat>, k: nat, dup: set<nat>)
    requires |f'| == |f| && k < |f| && forall j :: 0 <= j < |f| && j != k ==> f'[j] == f[j]
    requires Unshared(f[..k], dup) && (f'[k] == 0 || f'[k] !in dup)
    ensures Unshared(f'[..k + 1], dup)
  {
    var g := f'[..k + 1];
    forall j | 0 <= j < |g| ensures g[j] == 0 || g[j] !in dup {
      if j < k { assert g[j] == f[..k][j]; }
    }
  }

  ghost predicate SameButFile(files: Files, files': Files, ino: nat) {
    && |files'| == |files|
    && forall i :: 0 <= i < |files| && i != ino ==> files'[i] == files[i]
  }

  ghost predicate SameButOne(files: Files, files': Files, ino: nat, k: nat) {
    && |files'| == |files|
    && (forall i :: 0 <= i < |files| && i != ino ==> files'[i] == files[i])
    && (ino < |files| ==>
          && |files'[ino]| == |files[ino]|
          && forall j :: 0 <= j < |files[ino]| && j != k ==> files'[ino][j] == files[ino][j])
  }

  /** The two bitmaps after marking the metadata and then the claims `done`. */
  ghost predicate Marked(found: set<nat>, dup: set<nat>, meta: set<nat>, done: multiset<nat>) {
    && (forall b :: b in found <==> b in meta || (b != 0 && b in done))
    && (forall b :: b in dup <==> b != 0 && done[b] >= if b in meta then 1 else 2)
  }

  /** The counters after listing the claims `done`. */
  ghost predicate Counted(clusters: Clusters, dup: set<nat>, done: multiset<nat>) {
    && (forall b :: b in clusters <==> b != 0 && b in dup && b in done)
    && (forall b :: b in clusters ==> clusters[b].numBad == done[b])
  }

  /** The entry of inode `ino`: the duplicate blocks among its pointers `f`. */
  ghost predicate Listed(inodes: map<nat, seq<nat>>, ino: nat, f: seq<nat>, dup: set<nat>) {
    && (ino in inodes <==> exists b :: b in f && b != 0 && b in dup)
    && (ino in inodes ==> forall b :: b in inodes[ino] <==> b in f && b != 0 && b in dup)
  }

  ghost predicate AllListed(inodes: map<nat, seq<nat>>, files: Files, dup: set<nat>) {
    && (forall j :: j in inodes ==> j < |files|)
    && (forall j :: 0 <= j < |files| ==> Listed(inodes, j, files[j], dup))
  }

  ghost predicate SameBut(before: map<nat, seq<nat>>, after: map<nat, seq<nat>>, ino: nat) {
    forall i :: i != ino ==> (i in after <==> i in before) && (i in before ==> after[i] == before[i])
  }

  /** The inode list of every duplicate block names exactly the files that claim it. */
  ghost predicate Claimants(clusters: Clusters, files: Files) {
    forall b :: b in clusters ==> Names(clusters[b].inodes, files, b)
  }

  ghost predicate Names(inodes: seq<nat>, files: Files, b: nat) {
    forall j: nat :: j in inodes <==> j < |files| && b in files[j]
  }

  lemma {:induction false} ClaimedLast(seen: Files, f: seq<nat>)
    ensures Claimed(seen + [f]) == Claimed(seen) + multiset(f)
  {
    ClaimedMore(seen + [f], |seen|);
    assert (seen + [f])[..|seen| + 1] == seen + [f] && (seen + [f])[..|seen|] == seen;
  }

  lemma {:induction false} ClaimedPointer(seen: Files, f: seq<nat>, b: nat)
    ensures Claimed(seen + [f + [b]]) == Claimed(seen + [f]) + multiset{b}
  {
    ClaimedLast(seen, f);
    ClaimedLast(seen, f + [b]);
    assert multiset(f + [b]) == multiset(f) + multiset{b};
  }

  lemma {:induction false} CountedMore(clusters: Clusters, dup: set<nat>, done: multiset<nat>, ino: nat, b: nat)
    requires Counted(clusters, dup, done)
    ensures var c := if b in clusters then clusters[b] else DupCluster(0, []);
            var more := if b != 0 && b in dup then clusters[b := DupCluster(c.numBad + 1, [ino] + c.inodes)]
                        else clusters;
            Counted(more, dup, done + multiset{b})
  {
  }

  lemma {:induction false} ListingBegins(clusters: Clusters, inodes: map<nat, seq<nat>>, dup: set<nat>, seen: Files,
                                         ino: nat)
    requires Counted(clusters, dup, Claimed(seen)) && Claimants(clusters, seen) && ino !in inodes
    ensures Counted(clusters, dup, Claimed(seen + [[]])) && Claimants(clusters, seen + [[]])
    ensures Listed(inodes, ino, [], dup)
  {
    ClaimedLast(seen, []);
    assert Claimed(seen) + multiset([]) == Claimed(seen);
    forall b | b in clusters ensures Names(clusters[b].inodes, seen + [[]], b) {
      assert Names(clusters[b].inodes, seen, b);
    }
  }

  lemma {:induction false} ClaimantsMore(clusters: Clusters, seen: Files, f: seq<nat>, dup: set<nat>, b: nat)
    requires Counted(clusters, dup, Claimed(seen + [f])) && Claimants(clusters, seen + [f])
    ensures var c := if b in clusters then clusters[b] else DupCluster(0, []);
            var more := if b != 0 && b in dup then clusters[b := DupCluster(c.numBad + 1, [|seen|] + c.inodes)]
                        else clusters;
            Claimants(more, seen + [f + [b]])
  {
    var was, now := seen + [f], seen + [f + [b]];
    if b != 0 && b in dup {
      if b !in clusters {
        NotNamed(was, b);
      } else {
        assert Names(clusters[b].inodes, was, b);
      }
      var c := if b in clusters then clusters[b] else DupCluster(0, []);
      assert Names([|seen|] + c.inodes, now, b);
    }
    forall d | d in clusters && d != b ensures Names(clusters[d].inodes, now, d) {
      assert Names(clusters[d].inodes, was, d);
    }
  }

  lemma {:induction false} NotNamed(files: Files, b: nat)
    requires b !in Claimed(files)
    ensures Names([], files, b)
  {
    forall j | 0 <= j < |files| ensures b !in files[j] {
      if b in files[j] {
        var k :| 0 <= k < |files[j]| && files[j][k] == b;
        ClaimedMember(files, j, k);
      }
    }
  }

  lemma {:induction false} ListedMore(inodes: map<nat, seq<nat>>, ino: nat, f: seq<nat>, dup: set<nat>, b: nat)
    requires Listed(inodes, ino, f, dup)
    ensures b == 0 || b !in dup ==> Listed(inodes, ino, f + [b], dup)
    ensures b != 0 && b in dup ==>
              Listed(inodes[ino := [b] + if ino in inodes then inodes[ino] else []], ino, f + [b], dup)
  {
    assert forall c :: c in f + [b] <==> c in f || c == b;
  }

  lemma {:induction false} AllListedMore(before: map<nat, seq<nat>>, after: map<nat, seq<nat>>, files: Files, i: nat,
                      dup: set<nat>)
    requires i < |files| && AllListed(before, files[..i], dup)
    requires SameBut(before, after, i) && Listed(after, i, files[i], dup)
    ensures AllListed(after, files[..i + 1], dup)
  {
    var upto := files[..i + 1];
    forall j | 0 <= j < |upto| ensures Listed(after, j, upto[j], dup) {
      if j < i { assert Listed(before, j, files[..i][j], dup); }
    }
  }

  lemma {:induction false} BooksOpen(clusters: Clusters, dup: set<nat>, found: set<nat>, meta: set<nat>,
                  live: multiset<nat>)
    requires Marked(found, dup, meta, live) && Counted(clusters, dup, live)
    ensures Accounts(clusters, dup, found, meta, live)
  {
  }

  // ---- The run of pass 1D ----

  /** The first `i` inodes have been dealt with. */
  ghost predicate Walked(s: State, c: State, i: nat, p: Plan) {
    && i <= |s.files| == |c.files| && c.dup <= s.dup
    && (forall j :: i <= j < |s.files| ==> c.files[j] == s.files[j])
    && KeptOrDeleted(s.files, s.disk, c.files, c.disk)
    && Untouched(s.files, c.files, s.dup)
    && (forall j :: 0 <= j < i && p.cloneYes(j) && p.deleteYes(j) ==> Unshared(c.files[j], c.dup))
  }

  lemma {:induction false} WalkBegins(s: State, p: Plan)
    ensures Walked(s, s, 0, p)
  {
  }

  lemma {:induction false} WalkEnds(s: State, c: State, p: Plan)
    requires Walked(s, c, |s.files|, p)
    ensures KeptOrDeleted(s.files, s.disk, c.files, c.disk) && Untouched(s.files, c.files, s.dup)
  {
  }

  lemma {:induction false} WalkedMore(s: State, c: State, c': State, i: nat, p: Plan)
    requires Walked(s, c, i, p) && i < |s.files|
    requires SameButFile(c.files, c'.files, i) && c'.dup <= c.dup
    requires KeptOrDeleted(c.files, c.disk, c'.files, c'.disk)
    requires Unshared(s.files[i], s.dup) ==> c'.files[i] == s.files[i]
    requires p.cloneYes(i) && p.deleteYes(i) ==> Unshared(c'.files[i], c'.dup)
    ensures Walked(s, c', i + 1, p)
  {
    KeptTrans(s.files, s.disk, c.files, c.disk, c'.files, c'.disk);
  }

  lemma {:induction false} KnownAtStart(s: State, i: nat)
    requires Covered(s) && i < |s.files|
    ensures Known(s, s.files[i])
  {
    forall k | 0 <= k < |s.files[i]| ensures s.files[i][k] == 0 || s.files[i][k] in s.found {
      ClaimedMember(s.files, i, k);
    }
  }

  /** The pointers moved are the claims moved. */
  lemma {:induction false} SameParts(s: State, files0: Files, files: Files, i: nat, a0: Left, a: Left)
    requires i < |files0| && SameButFile(files0, files, i) && a.claims <= a0.claims
    requires Matches(s, Claimed(files0), a0) && Matches(s, Claimed(files), a)
    ensures Parted(s, multiset(files[i]), multiset(files0[i]), a0, a)
  {
    assert files == files0[i := files[i]];
    ClaimedUpdate(files0, i, files[i]);
  }

  /** What pass1d finds out about an inode, said of the claims left. */
  lemma {:induction false} InspectMeans(p: Plan, s: State, c: State, a: Left, i: nat, fileOk: bool, shared: seq<nat>)
    requires InPass(p.meta, s, c, a, None) && i in p.inodes && p.lists == s.clusters
    requires fileOk <==> forall b :: b in p.inodes[i] && b in c.clusters ==>
               c.clusters[b].numBad <= 1 && b !in p.meta
    requires forall j :: j in shared <==>
               j != i && exists b :: b in p.inodes[i] && b in c.clusters && j in c.clusters[b].inodes
    ensures fileOk <==> LooksOk(p, Shows(a), i)
    ensures |shared| != 0 <==> Shares(p, i)
  {
    PassShows(p.meta, s, c, a);
    forall j ensures j in shared <==> SharesWith(p, i, j) {
    }
    if |shared| != 0 {
      assert shared[0] in shared && SharesWith(p, i, shared[0]);
    }
  }

  /** The state that pass 1B leaves: the books are right, and every duplicate block has the list of
      the files that claim it. */
  ghost predicate Opened(meta: set<nat>, s: State) {
    Accounts(s.clusters, s.dup, s.found, meta, Claimed(s.files)) && Claimants(s.clusters, s.files)
  }

  lemma {:induction false} OpenedNow(meta: set<nat>, s: State)
    requires Accounts(s.clusters, s.dup, s.found, meta, Claimed(s.files)) && Claimants(s.clusters, s.files)
    ensures Opened(meta, s)
  {
  }

  lemma {:induction false} WalkedSame(s: State, c: State, i: nat, p: Plan)
    requires Walked(s, c, i, p)
    ensures i <= |s.files| == |c.files| && forall j :: i <= j < |s.files| ==> c.files[j] == s.files[j]
  {
  }

  lemma {:induction false} NoneLost(claimed: multiset<nat>, lost: multiset<nat>)
    ensures lost == multiset{} ==> claimed - lost == claimed
  {
  }

  /** A block of a file that was not found to be duplicate has no other claim. */
  lemma {:induction false} UndupedAlone(meta: set<nat>, s: State, c: State, a: Left, i: nat, k: nat)
    requires InPass(meta, s, c, a, None) && i < |c.files| && k < |c.files[i]|
    requires c.files[i][k] != 0 && c.files[i][k] !in s.dup
    ensures c.files[i][k] !in meta && (Claimed(c.files) - a.lost)[c.files[i][k]] <= 1
  {
    var live := Claimed(c.files) - a.lost;
    PassShows(meta, s, c, a);
    PassFacts(meta, s, c, a, None);
    ClaimedMember(c.files, i, k);
    ClearMeansExclusive(c.clusters, c.dup, c.found, meta, live, c.files[i][k]);
  }

  lemma {:induction false} UnlistedAlone(p: Plan, s: State, c: State, a: Left, i: nat)
    requires InPass(p.meta, s, c, a, None) && i < |c.files|
    requires i !in p.inodes && Listed(p.inodes, i, c.files[i], s.dup)
    ensures Alone(p.meta, Claimed(c.files) - a.lost, c.files[i])
  {
    var f := c.files[i];
    forall k | 0 <= k < |f| && f[k] != 0 ensures f[k] !in p.meta && (Claimed(c.files) - a.lost)[f[k]] <= 1 {
      assert f[k] in f;
      UndupedAlone(p.meta, s, c, a, i, k);
    }
  }

  /** The listed blocks of a file look exclusive if and only if no block of it is metadata or has
      another claim. */
  lemma {:induction false} LooksAlone(p: Plan, s: State, c: State, a: Left, i: nat)
    requires InPass(p.meta, s, c, a, None) && i < |c.files| && p.lists == s.clusters && Opened(p.meta, s)
    requires i in p.inodes && Listed(p.inodes, i, c.files[i], s.dup)
    ensures LooksOk(p, Shows(a), i) <==> Alone(p.meta, Claimed(c.files) - a.lost, c.files[i])
  {
    var f, live := c.files[i], Claimed(c.files) - a.lost;
    PassShows(p.meta, s, c, a);
    hide InPass;
    if LooksOk(p, Shows(a), i) {
      forall k | 0 <= k < |f| && f[k] != 0 ensures f[k] !in p.meta && live[f[k]] <= 1 {
        assert f[k] in f;
        if f[k] in s.dup {
          assert f[k] in p.inodes[i] && f[k] in p.lists;
        } else {
          UndupedAlone(p.meta, s, c, a, i, k);
        }
      }
    }
    if Alone(p.meta, live, f) {
      forall b | b in p.inodes[i] && b in p.lists ensures Shows(a)[b] <= 1 && b !in p.meta {
        var k :| 0 <= k < |f| && f[k] == b;
      }
    }
  }

  /** A listed file that is alone now, with no block twice, shared a block before. */
  lemma {:induction false} AloneShares(p: Plan, s: State, c: State, a: Left, i: nat)
    requires i < |s.files| && i < |c.files| && c.files[i] == s.files[i] && p.lists == s.clusters && Opened(p.meta, s)
    requires i in p.inodes && Listed(p.inodes, i, c.files[i], s.dup)
    ensures Alone(p.meta, Claimed(c.files) - a.lost, c.files[i]) && Once(c.files[i]) ==> Shares(p, i)
  {
    var f := s.files[i];
    if Alone(p.meta, Claimed(c.files) - a.lost, f) && Once(f) {
      var b :| b in f && b != 0 && b in s.dup;
      var k :| 0 <= k < |f| && f[k] == b;
      assert b !in p.meta && b in p.lists && Claimed(s.files)[b] >= 2;
      OtherClaimant(s.files, i, b);
      var j :| 0 <= j < |s.files| && j != i && b in s.files[j];
      assert Names(s.clusters[b].inodes, s.files, b);
      assert SharesWith(p, i, j);
    }
  }

  lemma {:induction false} OtherClaimant(files: Files, i: nat, b: nat)
    requires i < |files| && b in files[i] && multiset(files[i])[b] == 1 && Claimed(files)[b] >= 2
    ensures exists j :: 0 <= j < |files| && j != i && b in files[j]
  {
    ClaimedOnce(files, i, b);
  }

  /** A file deleted without a clone loses no claim. */
  lemma {:induction false} DeletedLosesNothing(p: Plan, a: Left, f: seq<nat>, i: nat)
    requires i in p.inodes
    ensures a.lost == multiset{} && !p.cloneYes(i) ==>
              forall metaSeen: bool :: ResolveOne(p, a, f, i, metaSeen).lost == multiset{}
  {
    if a.lost == multiset{} && !p.cloneYes(i) {
      forall metaSeen: bool ensures ResolveOne(p, a, f, i, metaSeen).lost == multiset{} {
        assert DeleteRest(a, a, f).lost == multiset{};
      }
    }
  }

  /** What the turn of inode `i` does with the files, `a` and `a'` being left before and after it. */
  ghost predicate Turn(p: Plan, mid: Files, after: Files, i: nat, a: Left, a': Left) {
    && SameButFile(mid, after, i) && i < |mid|
    && (Alone(p.meta, Claimed(mid), mid[i]) ==> after[i] == mid[i])
    && (!p.cloneYes(i) && p.deleteYes(i) && a.lost == multiset{} ==>
          && a'.lost == multiset{}
          && after[i] == if Alone(p.meta, Claimed(mid), mid[i]) then mid[i] else [])
  }

  /** What the first `n` turns have done. */
  ghost predicate Turned(p: Plan, before: Files, files: Files, n: nat, a: Left) {
    && KeptAlone(p.meta, before, files, n)
    && ((forall j: nat :: !p.cloneYes(j) && p.deleteYes(j)) ==>
          a.lost == multiset{} && KeptOnlyAlone(p.meta, before, files, n))
  }

  /** Of a file that was not deleted: its contents are as before, and its pointers too if it was not
      cloned. */
  ghost predicate Answered(files: Files, disk: Store, files': Files, disk': Store, i: nat, cloned: bool) {
    && i < |files| == |files'|
    && Contents(disk', files'[i]) == Contents(disk, files[i])
    && (!cloned ==> files'[i] == files[i])
  }

  /** So it is with every file beyond the first `n`, and of those with all whose deletion was declined. */
  ghost predicate AllAnswered(p: Plan, files: Files, disk: Store, files': Files, disk': Store, n: nat) {
    && |files'| == |files|
    && forall i :: 0 <= i < |files| ==> Answer(p, files, disk, files', disk', n, i)
  }

  ghost predicate Answer(p: Plan, files: Files, disk: Store, files': Files, disk': Store, n: nat, i: nat) {
    i >= n || !p.deleteYes(i) ==> Answered(files, disk, files', disk', i, i < n && p.cloneYes(i))
  }

  lemma {:induction false} TurnChanges(p: Plan, mid: Files, after: Files, i: nat, a: Left, a': Left)
    requires Turn(p, mid, after, i, a, a')
    ensures SameButFile(mid, after, i)
  {
  }

  lemma {:induction false} OthersKept(files: Files, disk: Store, files': Files, disk': Store, i: nat, j: nat)
    requires SameButFile(files, files', i) && KeptOrDeleted(files, disk, files', disk') && j != i && j < |files|
    ensures Answered(files, disk, files', disk', j, false)
  {
  }

  lemma {:induction false} AnsweredMore(p: Plan, files: Files, disk: Store, mid: Files, diskm: Store, after: Files,
                                        diska: Store, i: nat)
    requires AllAnswered(p, files, disk, mid, diskm, i) && i < |files|
    requires SameButFile(mid, after, i) && KeptOrDeleted(mid, diskm, after, diska)
    requires !p.deleteYes(i) ==> Answered(mid, diskm, after, diska, i, p.cloneYes(i))
    ensures AllAnswered(p, files, disk, after, diska, i + 1)
  {
    var n := i + 1;
    forall j | 0 <= j < |files| ensures Answer(p, files, disk, after, diska, n, j) {
      assert Answer(p, files, disk, mid, diskm, i, j);
      if j != i {
        OthersKept(mid, diskm, after, diska, i, j);
      }
    }
  }

  lemma {:induction false} AnswersBegin(p: Plan, files: Files, disk: Store)
    ensures AllAnswered(p, files, disk, files, disk, 0)
  {
  }

  lemma {:induction false} AnswersEnd(p: Plan, files: Files, disk: Store, files': Files, disk': Store)
    requires AllAnswered(p, files, disk, files', disk', |files|)
    ensures |files'| == |files|
    ensures forall i :: 0 <= i < |files| && !p.deleteYes(i) ==> Contents(disk', files'[i]) == Contents(disk, files[i])
    ensures forall i :: 0 <= i < |files| && !p.cloneYes(i) && !p.deleteYes(i) ==> files'[i] == files[i]
  {
    forall i | 0 <= i < |files| && !p.deleteYes(i)
      ensures Contents(disk', files'[i]) == Contents(disk, files[i]) && (!p.cloneYes(i) ==> files'[i] == files[i])
    {
      assert Answer(p, files, disk, files', disk', |files|, i);
    }
  }

  lemma {:induction false} NoTurns(p: Plan, files: Files, a: Left)
    requires a.lost == multiset{}
    ensures Turned(p, files, files, 0, a)
  {
  }

  lemma {:induction false} TurnedMore(p: Plan, before: Files, mid: Files, after: Files, i: nat, a: Left, a': Left)
    requires Turned(p, before, mid, i, a) && Turn(p, mid, after, i, a, a') && i < |before| == |mid|
    requires forall j :: i <= j < |before| ==> mid[j] == before[j]
    ensures Turned(p, before, after, i + 1, a')
  {
    hide KeptAlone, KeptOnlyAlone, Alone;
    TurnKept(p.meta, before, mid, after, i);
    if forall j: nat :: !p.cloneYes(j) && p.deleteYes(j) {
      TurnOnlyAlone(p.meta, before, mid, after, i);
    }
  }

  lemma {:induction false} AllTurns(meta: set<nat>, before: Files, after: Files)
    requires KeptAlone(meta, before, after, |before|)
    ensures |after| == |before|
    ensures forall i :: 0 <= i < |after| ==> (AloneAt(meta, before, after, i) ==> after[i] == before[i])
    ensures KeptOnlyAlone(meta, before, after, |before|) ==>
              forall i :: 0 <= i < |after| ==>
                && after[i] == (if LastClaimant(meta, before, i) then before[i] else [])
                && (after[i] == before[i] <==> LastClaimant(meta, before, i))
  {
    hide AloneAt, LastClaimant, KeptOnlyAlone;
    if KeptOnlyAlone(meta, before, after, |before|) {
      forall i | 0 <= i < |after|
        ensures after[i] == (if LastClaimant(meta, before, i) then before[i] else [])
        ensures after[i] == before[i] <==> LastClaimant(meta, before, i)
      {
        OnlyLastStay(meta, before, after, i);
      }
    }
  }

  lemma {:induction false} PassEnds(meta: set<nat>, s: State, c: State, a: Left, p: Plan)
    requires InPass(meta, s, c, a, None) && Walked(s, c, |s.files|, p)
    ensures Accounts(c.clusters, c.dup, c.found, meta, Claimed(c.files)) <==>
              forall b :: b in a.lost ==> a.claims[b] == 1
    ensures forall b :: b != 0 && b in Claimed(s.files) && b in s.marks ==>
              (b in c.marks <==> b in meta || a.claims[b] > a.lost[b])
    ensures (forall i: nat :: p.cloneYes(i) && p.deleteYes(i)) ==>
              (Exclusive(Claimed(c.files), meta) <==> Accounts(c.clusters, c.dup, c.found, meta, Claimed(c.files)))
  {
    hide InPass, Walked, Accounts, Exclusive;
    BooksRight(meta, s, c, a);
    LostKnown(meta, s, c, a);
    PassMarks(meta, s, c, a);
    PassExclusive(meta, s, c, a, p);
  }

  lemma {:induction false} PassMarks(meta: set<nat>, s: State, c: State, a: Left)
    requires InPass(meta, s, c, a, None)
    ensures forall b :: b != 0 && b in Claimed(s.files) && b in s.marks ==>
              (b in c.marks <==> b in meta || a.claims[b] > a.lost[b])
  {
  }

  lemma {:induction false} PassExclusive(meta: set<nat>, s: State, c: State, a: Left, p: Plan)
    requires InPass(meta, s, c, a, None) && Walked(s, c, |s.files|, p)
    ensures (forall i: nat :: p.cloneYes(i) && p.deleteYes(i)) ==>
              (Exclusive(Claimed(c.files), meta) <==> Accounts(c.clusters, c.dup, c.found, meta, Claimed(c.files)))
  {
    hide InPass;
    if forall i: nat :: p.cloneYes(i) && p.deleteYes(i) {
      if Accounts(c.clusters, c.dup, c.found, meta, Claimed(c.files)) {
        UnsharedExclusive(c.clusters, c.dup, c.found, meta, c.files);
      } else {
        BooksRight(meta, s, c, a);
        LostKnown(meta, s, c, a);
      }
    }
  }

  /** Two files share block 5, and the pointer to its copy cannot be stored: the counters then show
      one claim where there are two; and after the first file is deleted the block is free,
      although the second file claims it. */
  method LosingRun(c: Checker)
    requires c.Balanced() && c.files == [[5], [5]] && 5 !in c.meta && 5 in c.blockMap && c.Free() != {}
    modifies c`clusters, c`dup, c`found, c`blockMap, c`disk, c`files
    ensures |c.files| == 2 && c.files[1] == [5] && 5 !in c.blockMap
  {
    hide InPass, DeleteRest, CloneFrom, LosesAt;
    var stores := _ => false;
    ghost var s, a := c.Now(), Left(Claimed(c.files), multiset{}, |c.Free()|);
    PassBegins(c.meta, s, a.free);
    PassFacts(c.meta, s, s, a, None);
    KnownAtStart(s, 0);
    LosingClaims(c.meta, c.files, a, stores);
    c.CloneOrDelete(0, true, true, stores, s, a);
    LosingMarks(c.meta, s, c.Now(), CloneOrDeleted(c.meta, a, [5], true, true, stores));
  }

  lemma {:induction false} TwoClaims(files: Files)
    requires files == [[5], [5]]
    ensures Claimed(files) == multiset{5, 5}
  {
    assert files[0] == [5] && files[1..] == [[5]] && [[5]][0] == [5] && [[5]][1..] == [];
    assert Claimed([[5]]) == multiset([5]) + Claimed([[5]][1..]);
  }

  lemma {:induction false} LosingClaims(meta: set<nat>, files: Files, a: Left, stores: nat -> bool)
    requires files == [[5], [5]] && a == Left(Claimed(files), multiset{}, a.free) && a.free > 0
    requires 5 !in meta && !stores(0)
    ensures var r := CloneOrDeleted(meta, a, [5], true, true, stores);
            r.claims[5] == 1 && r.lost[5] == 1
  {
    hide DeleteRest, CloneFrom;
    TwoClaims(files);
    assert multiset([5]) == multiset{5} && [5][..0] == [];
    assert LosesAt(meta, a.claims, [5], a.free, stores, 0);
    assert Left(a.claims, multiset{}, a.free) == a;
    LostThenDeleted(meta, a.claims, a.free, [5], stores, 0);
  }

  lemma {:induction false} LosingMarks(meta: set<nat>, s: State, c: State, a: Left)
    requires InPass(meta, s, c, a, None) && a.claims[5] == a.lost[5]
    requires 5 in s.marks && 5 !in meta && 5 in Claimed(s.files)
    ensures 5 !in c.marks
  {
  }

  ghost function ClaimedSet(files: Files): set<nat> {
    set b | b in Claimed(files) && b != 0
  }

  /** The blocks claimed more than once, and those of the metadata that are claimed. */
  ghost function SharedSet(files: Files, meta: set<nat>): set<nat> {
    set b | b in Claimed(files) && b != 0 && Claimed(files)[b] >= if b in meta then 1 else 2
  }

  /** At the start of pass 1 there is a free block for every pointer that will need a copy. */
  ghost predicate EnoughAtStart(meta: set<nat>, first: nat, end: nat, files: Files) {
    |FreeBlocks(first, end, meta + ClaimedSet(files))| >= TotalIn(files, SharedSet(files, meta))
  }

  lemma {:induction false} MarkedSets(found: set<nat>, dup: set<nat>, meta: set<nat>, files: Files)
    requires Marked(found, dup, meta, Claimed(files))
    ensures found == meta + ClaimedSet(files) && dup == SharedSet(files, meta)
  {
    forall b ensures b in dup <==> b in SharedSet(files, meta) {
      if b in dup { assert Claimed(files)[b] >= 1; }
    }
  }

  lemma {:induction false} StoredOne(files: Files, i: nat, k: nat, copy: nat, dup: set<nat>)
    requires i < |files| && k < |files[i]| && files[i][k] in dup && copy !in dup
    ensures var files' := SetPointer(files, i, k, copy);
            && SameButOne(files, files', i, k) && files'[i][k] == copy
            && TotalIn(files', dup) + 1 == TotalIn(files, dup)
  {
    TotalInMove(files, i, k, copy, dup);
  }

  /** Every file reads as it did. */
  ghost predicate SameContents(files: Files, disk: Store, files': Files, disk': Store) {
    && |files'| == |files|
    && forall i :: 0 <= i < |files| ==> Contents(disk', files'[i]) == Contents(disk, files[i])
  }

  lemma {:induction false} SameContentsRefl(files: Files, disk: Store)
    ensures SameContents(files, disk, files, disk)
  {
  }

  lemma {:induction false} SameContentsTrans(f0: Files, d0: Store, f1: Files, d1: Store, f2: Files, d2: Store)
    ensures SameContents(f0, d0, f1, d1) && SameContents(f1, d1, f2, d2) ==> SameContents(f0, d0, f2, d2)
  {
  }

  /** Copying a block to one that nobody claims, and pointing at the copy, changes no file. */
  lemma {:induction false} CopyKeeps(files: Files, disk: Store, found: set<nat>, live: multiset<nat>,
                  ino: nat, k: nat, copy: nat)
    requires ino < |files| && k < |files[ino]| && files[ino][k] != 0
    requires live == Claimed(files) && (forall b :: b in live && b != 0 ==> b in found)
    requires copy !in found && copy != 0
    ensures var disk' := disk[copy := ReadBlock(disk, files[ino][k])];
            && SameContents(files, disk, files, disk')
            && SameContents(files, disk, SetPointer(files, ino, k, copy), disk')
  {
    var disk' := disk[copy := ReadBlock(disk, files[ino][k])];
    forall i, j | 0 <= i < |files| && 0 <= j < |files[i]|
      ensures ReadBlock(disk', files[i][j]) == ReadBlock(disk, files[i][j])
    {
      ClaimedMember(files, i, j);
    }
    forall i | 0 <= i < |files|
      ensures Contents(disk', files[i]) == Contents(disk, files[i])
      ensures Contents(disk', SetPointer(files, ino, k, copy)[i]) == Contents(disk, files[i])
    {
      assert ReadBlock(disk', copy) == ReadBlock(disk, files[ino][k]);
    }
  }
}
