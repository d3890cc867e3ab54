/** Resolution of multiply-claimed blocks (e2fsck/pass1b.c, with mark_block_used of
    e2fsck/pass1.c), for a cluster ratio of 1 and data blocks. */
module DupBlocks {

  // ---- Claims ----

  /** The inode table: the block pointers of every inode; 0 is a hole. */
  type Files = seq<seq<nat>>

  function SetPointer(files: Files, i: nat, k: nat, v: nat): Files
    requires i < |files| && k < |files[i]|
  {
    var f: seq<nat> := files[i][k := v];
    files[i := f]
  }

  /** Every pointer of every file, with its multiplicity. */
  ghost function Claimed(files: Files): multiset<nat> {
    if files == [] then multiset{} else multiset(files[0]) + Claimed(files[1..])
  }

  lemma {:induction false} ClaimedUpdate(files: Files, i: nat, f: seq<nat>)
    requires i < |files|
    ensures multiset(files[i]) <= Claimed(files)
    ensures Claimed(files[i := f]) == Claimed(files) - multiset(files[i]) + multiset(f)
  {
    if i == 0 {
      assert files[0 := f][1..] == files[1..];
      Exchange(multiset{}, Claimed(files[1..]), multiset(files[0]), multiset(f));
    } else {
      ClaimedUpdate(files[1..], i - 1, f);
      assert files[i := f][1..] == files[1..][i - 1 := f];
      Exchange(multiset(files[0]), Claimed(files[1..]) - multiset(files[i]), multiset(files[i]), multiset(f));
    }
  }

  lemma {:induction false} Exchange(a: multiset<nat>, b: multiset<nat>, x: multiset<nat>, y: multiset<nat>)
    ensures a + (b + x) - x + y == a + (b + y) && x + b - x + y == y + b
    ensures x <= a + (b + x)
  {
  }

  lemma {:induction false} ClaimedMore(files: Files, i: nat)
    requires i < |files|
    ensures Claimed(files[..i + 1]) == Claimed(files[..i]) + multiset(files[i])
  {
    if i > 0 {
      ClaimedMore(files[1..], i - 1);
      assert files[..i + 1][1..] == files[1..][..i] && files[..i][1..] == files[1..][..i - 1];
    }
  }

  lemma {:induction false} MultisetUpdate(s: seq<nat>, k: nat, v: nat)
    requires k < |s|
    ensures multiset(s[k := v]) == multiset(s) - multiset{s[k]} + multiset{v}
  {
    assert s == s[..k] + [s[k]] + s[k + 1..];
    assert s[k := v] == s[..k] + [v] + s[k + 1..];
  }

  /** Moving one pointer moves one claim. */
  lemma {:induction false} ClaimedMove(files: Files, i: nat, k: nat, v: nat)
    requires i < |files| && k < |files[i]|
    ensures var b := files[i][k];
            && b in Claimed(files)
            && Claimed(SetPointer(files, i, k, v)) == Claimed(files) - multiset{b} + multiset{v}
  {
    ClaimedUpdate(files, i, SetPointer(files, i, k, v)[i]);
    MultisetUpdate(files[i], k, v);
    assert files[i][k] in multiset(files[i]);
  }

  lemma {:induction false} ClaimedMember(files: Files, i: nat, k: nat)
    requires i < |files| && k < |files[i]|
    ensures files[i][k] in Claimed(files)
  {
    if i == 0 {
      assert files[0][k] in multiset(files[0]);
    } else {
      ClaimedMember(files[1..], i - 1, k);
    }
  }

  lemma {:induction false} ClaimedBy(files: Files, b: nat)
    requires b in Claimed(files)
    ensures exists i, k :: 0 <= i < |files| && 0 <= k < |files[i]| && files[i][k] == b
  {
    if b in multiset(files[0]) {
      var k :| 0 <= k < |files[0]| && files[0][k] == b;
    } else {
      ClaimedBy(files[1..], b);
      var i, k :| 0 <= i < |files[1..]| && 0 <= k < |files[1..][i]| && files[1..][i][k] == b;
      assert files[i + 1][k] == b;
    }
  }

  // ---- The counters ----

  /** struct dup_cluster */
  datatype DupCluster = DupCluster(numBad: int, inodes: seq<nat>)

  type Clusters = map<nat, DupCluster>

  /** What the counter of a block shows: its live claims; it is never counted below 1, because
      the last claim is dropped without looking at the counter. */
  function Shown(live: nat): int {
    if live == 0 then 1 else live
  }

  /** The books are right for the claims `live`: the counter of every block that is not
      metadata shows its claims, its duplicate bit is set exactly if there are two or more,
      a claimed metadata block has its bit set, and a block without a counter has at most
      one claim. */
  ghost predicate Accounts(clusters: Clusters, dup: set<nat>, found: set<nat>, meta: set<nat>,
                           live: multiset<nat>)
  {
    && meta <= found && clusters.Keys <= found && dup <= clusters.Keys
    && (forall b :: b in live && b != 0 ==> b in found)
    && (forall b :: b in clusters && b !in meta ==>
          clusters[b].numBad == Shown(live[b]) && (b in dup <==> live[b] >= 2))
    && (forall b :: b in meta && b in live && b != 0 ==> b in dup)
    && (forall b :: b != 0 && b !in clusters ==> live[b] <= 1)
    && 0 !in clusters
  }

  /** A block whose bit is clear has at most one claim, and none if it is metadata. */
  lemma {:induction false} ClearMeansExclusive(clusters: Clusters, dup: set<nat>, found: set<nat>, meta: set<nat>,
                            live: multiset<nat>, b: nat)
    requires Accounts(clusters, dup, found, meta, live) && b != 0 && b !in dup
    ensures live[b] <= 1 && (b in live ==> b !in meta)
  {
  }

  /** A claimed block has its bit set exactly if it is metadata or has another claim. */
  lemma {:induction false} DupMeans(clusters: Clusters, dup: set<nat>, found: set<nat>, meta: set<nat>,
                                    live: multiset<nat>, b: nat)
    requires Accounts(clusters, dup, found, meta, live) && b in live && b != 0
    ensures b in dup <==> b in meta || live[b] >= 2
  {
  }

  /** The inode lists of the dictionary never change after pass 1B. */
  predicate SameLists(c: Clusters, c': Clusters) {
    c'.Keys == c.Keys && forall b :: b in c ==> c'[b].inodes == c[b].inodes
  }

  /** The counter while a claim is dropped: decrement_badcount on a block that is not metadata. */
  lemma {:induction false} DropClaim(clusters: Clusters, dup: set<nat>, found: set<nat>, meta: set<nat>,
                  live: multiset<nat>, b: nat)
    requires Accounts(clusters, dup, found, meta, live)
    requires b in clusters && b !in meta && live[b] >= 2
    ensures var n := clusters[b].numBad - 1;
            Accounts(clusters[b := clusters[b].(numBad := n)], if n <= 1 then dup - {b} else dup,
                     found, meta, live - multiset{b})
  {
  }

  /** A claim on a metadata block may go without its counter being touched, or being lowered. */
  lemma {:induction false} DropMetaClaim(clusters: Clusters, dup: set<nat>, found: set<nat>, meta: set<nat>,
                      live: multiset<nat>, b: nat, n: int)
    requires Accounts(clusters, dup, found, meta, live) && b in meta
    ensures Accounts(clusters, dup, found, meta, live - multiset{b})
    ensures b in clusters ==>
              Accounts(clusters[b := clusters[b].(numBad := n)], dup, found, meta, live - multiset{b})
  {
  }

  /** The claim on a block whose bit is clear is the last one shown, or not shown any more. */
  lemma {:induction false} DropLastClaim(clusters: Clusters, dup: set<nat>, found: set<nat>, meta: set<nat>,
                      live: multiset<nat>, b: nat)
    requires Accounts(clusters, dup, found, meta, live)
    requires b != 0 && b !in dup && (b in live || b !in meta)
    ensures live[b] <= 1 && b !in meta
    ensures Accounts(clusters, dup, found, meta, live - multiset{b})
  {
  }

  /** A fresh block gets its first claim. */
  lemma {:induction false} AddFreshClaim(clusters: Clusters, dup: set<nat>, found: set<nat>, meta: set<nat>,
                      live: multiset<nat>, b: nat)
    requires Accounts(clusters, dup, found, meta, live) && b !in found && b != 0
    ensures Accounts(clusters, dup, found + {b}, meta, live + multiset{b})
    ensures Accounts(clusters, dup, found + {b}, meta, live)
  {
    assert b !in live;
  }

  lemma {:induction false} DropHole(clusters: Clusters, dup: set<nat>, found: set<nat>, meta: set<nat>,
                 live: multiset<nat>)
    requires Accounts(clusters, dup, found, meta, live)
    ensures Accounts(clusters, dup, found, meta, live - multiset{0})
  {
  }

  /** A counter lowered for a claim that is still there is wrong: this is what a failed remap
      leaves behind. */
  lemma {:induction false} LostClaimIsWrong(clusters: Clusters, dup: set<nat>, found: set<nat>, meta: set<nat>,
                         live: multiset<nat>, b: nat)
    requires Accounts(clusters, dup, found, meta, live - multiset{b})
    requires b in clusters && b !in meta && live[b] >= 2
    ensures !Accounts(clusters, dup, found, meta, live)
  {
    assert clusters[b].numBad == live[b] - 1;
  }

  // ---- What a file reads ----

  /** The data on disk; a block never written reads as 0. */
  type Store = map<nat, int>

  function ReadBlock(disk: Store, b: nat): int {
    if b != 0 && b in disk then disk[b] else 0
  }

  function Contents(disk: Store, f: seq<nat>): seq<int> {
    seq(|f|, k requires 0 <= k < |f| => ReadBlock(disk, f[k]))
  }

  // ---- How many pointers still need a copy ----

  function CountIn(f: seq<nat>, d: set<nat>): nat {
    if f == [] then 0 else (if f[0] in d then 1 else 0) + CountIn(f[1..], d)
  }

  function TotalIn(files: Files, d: set<nat>): nat {
    if files == [] then 0 else CountIn(files[0], d) + TotalIn(files[1..], d)
  }

  lemma {:induction false} CountInMove(f: seq<nat>, k: nat, v: nat, d: set<nat>)
    requires k < |f| && f[k] in d && v !in d
    ensures CountIn(f[k := v], d) + 1 == CountIn(f, d)
  {
    if k == 0 {
      assert f[0 := v][1..] == f[1..];
    } else {
      assert f[k := v][1..] == f[1..][k - 1 := v];
      CountInMove(f[1..], k - 1, v, d);
    }
  }

  lemma {:induction false} CountInShrinks(f: seq<nat>, d: set<nat>, e: set<nat>)
    requires e <= d
    ensures CountIn(f, e) <= CountIn(f, d)
  {
    if f != [] { CountInShrinks(f[1..], d, e); }
  }

  lemma {:induction false} TotalInUpdate(files: Files, i: nat, f: seq<nat>, d: set<nat>)
    requires i < |files|
    ensures TotalIn(files[i := f], d) + CountIn(files[i], d) == TotalIn(files, d) + CountIn(f, d)
  {
    if i == 0 {
      assert files[0 := f][1..] == files[1..];
    } else {
      assert files[i := f][1..] == files[1..][i - 1 := f];
      TotalInUpdate(files[1..], i - 1, f, d);
    }
  }

  lemma {:induction false} TotalInShrinks(files: Files, d: set<nat>, e: set<nat>)
    requires e <= d
    ensures TotalIn(files, e) <= TotalIn(files, d)
  {
    if files != [] {
      CountInShrinks(files[0], d, e);
      TotalInShrinks(files[1..], d, e);
    }
  }

  /** One pointer moved off a duplicate block leaves one fewer to copy. */
  lemma {:induction false} TotalInMove(files: Files, i: nat, k: nat, v: nat, d: set<nat>)
    requires i < |files| && k < |files[i]| && files[i][k] in d && v !in d
    ensures TotalIn(SetPointer(files, i, k, v), d) + 1 == TotalIn(files, d)
  {
    TotalInUpdate(files, i, SetPointer(files, i, k, v)[i], d);
    CountInMove(files[i], k, v, d);
  }

  lemma {:induction false} CountInPositive(f: seq<nat>, k: nat, d: set<nat>)
    requires k < |f| && f[k] in d
    ensures CountIn(f, d) >= 1
  {
    if k > 0 { CountInPositive(f[1..], k - 1, d); }
  }

  lemma {:induction false} TotalInPositive(files: Files, i: nat, k: nat, d: set<nat>)
    requires i < |files| && k < |files[i]| && files[i][k] in d
    ensures TotalIn(files, d) >= 1
  {
    CountInPositive(files[i], k, d);
    TotalInUpdate(files, i, [], d);
  }
}
