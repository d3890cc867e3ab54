/** What pass 1D (e2fsck/pass1b.c) comes to, computed from the state before it: which claims are
    left, and for which of them the counters were lowered too far because a pointer to a copy
    could not be stored. */
module CloneSpec {
  import opened Basics
  import opened DupBlocks

  /** The claims on the blocks claimed at the start, those of them that the counters no longer
      show, and the number of free blocks. */
  datatype Left = Left(claims: multiset<nat>, lost: multiset<nat>, free: nat)

  /** The claims that the counters show. */
  function Shows(a: Left): multiset<nat> {
    a.claims - a.lost
  }

  /** The pointer is to metadata or to a block with another claim. */
  predicate Needs(meta: set<nat>, live: multiset<nat>, b: nat) {
    b != 0 && (b in meta || live[b] >= 2)
  }

  /** How one round of a clone ends. */
  datatype Outcome = Done | NoSpace | RemapFailed

  function BlockOutcome(meta: set<nat>, a: Left, b: nat, stores: bool): Outcome {
    if !Needs(meta, Shows(a), b) then Done
    else if a.free == 0 then NoSpace
    else if stores then Done else RemapFailed
  }

  /** What is left after one round, up to a deferred decrement. */
  function AfterBlock(meta: set<nat>, a: Left, b: nat, stores: bool): Left {
    if !Needs(meta, Shows(a), b) || a.free == 0 then a
    else if stores then Left(a.claims - multiset{b}, a.lost, a.free - 1)
    else a.(free := a.free - 1)
  }

  function Lost(meta: set<nat>, b: nat): multiset<nat> {
    if b in meta then multiset{} else multiset{b}
  }

  /** The clone of a file from block `k` on, `stores` telling which pointers can be stored: what
      is left, and the block at which it stopped, or the length of the file. */
  function CloneFrom(meta: set<nat>, a: Left, f: seq<nat>, k: nat, stores: nat -> bool): (Left, nat)
    requires k <= |f|
    decreases |f| - k
  {
    if k == |f| then (a, k)
    else if !Needs(meta, Shows(a), f[k]) then CloneFrom(meta, a, f, k + 1, stores)
    else if a.free == 0 then (a, k)
    else if !stores(k) then (Left(a.claims, a.lost + Lost(meta, f[k]), a.free - 1), k)
    else CloneFrom(meta, Left(a.claims - multiset{f[k]}, a.lost, a.free - 1), f, k + 1, stores)
  }

  /** The deletion of a file of which the clone left `a`, `a0` having been left before it. */
  function DeleteRest(a0: Left, a: Left, f: seq<nat>): Left {
    var rest := a.claims - (multiset(f) - (a0.claims - a.claims));
    Left(rest, a.lost * rest, a.free)
  }

  /** A file cloned, or deleted if that failed or was declined. */
  function CloneOrDeleted(meta: set<nat>, a: Left, f: seq<nat>, cloneYes: bool, deleteYes: bool,
                          stores: nat -> bool): Left
  {
    var (c, stop) := if cloneYes then CloneFrom(meta, a, f, 0, stores) else (a, 0);
    if cloneYes && stop == |f| then c
    else if deleteYes then DeleteRest(a, c, f) else c
  }

  /** One round of the clone. */
  lemma {:induction false} CloneStep(meta: set<nat>, a: Left, f: seq<nat>, k: nat, stores: nat -> bool)
    requires k < |f|
    ensures var out, c := BlockOutcome(meta, a, f[k], stores(k)), AfterBlock(meta, a, f[k], stores(k));
            CloneFrom(meta, a, f, k, stores) ==
            if out == Done then CloneFrom(meta, c, f, k + 1, stores)
            else (if out == NoSpace then c else c.(lost := c.lost + Lost(meta, f[k])), k)
    ensures BlockOutcome(meta, a, f[k], stores(k)) != Done ==> f[k] != 0
    ensures BlockOutcome(meta, a, f[k], stores(k)) == RemapFailed ==> !stores(k)
  {
  }

  lemma {:induction false} CloneEnds(meta: set<nat>, a: Left, f: seq<nat>, stores: nat -> bool)
    ensures CloneFrom(meta, a, f, |f|, stores) == (a, |f|)
  {
  }

  lemma {:induction false} CloneShrinks(meta: set<nat>, a: Left, f: seq<nat>, k: nat, stores: nat -> bool)
    requires k <= |f|
    ensures CloneFrom(meta, a, f, k, stores).0.claims <= a.claims
    ensures CloneFrom(meta, a, f, k, stores).1 <= |f|
    decreases |f| - k
  {
    if k < |f| {
      if !Needs(meta, Shows(a), f[k]) {
        CloneShrinks(meta, a, f, k + 1, stores);
      } else if a.free > 0 && stores(k) {
        CloneShrinks(meta, Left(a.claims - multiset{f[k]}, a.lost, a.free - 1), f, k + 1, stores);
      }
    }
  }

  /** What decides the pass besides the claims: the metadata, the dictionaries of pass 1B, the
      answers, and which pointers can be stored. */
  datatype Plan = Plan(meta: set<nat>, lists: Clusters, inodes: map<nat, seq<nat>>,
                       cloneYes: nat -> bool, deleteYes: nat -> bool, stores: (nat, nat) -> bool)

  /** Which pointers of one inode can be stored. */
  function Of(stores: (nat, nat) -> bool, i: nat): nat -> bool {
    (k: nat) => stores(i, k)
  }

  /** All listed blocks look exclusive. */
  predicate LooksOk(p: Plan, live: multiset<nat>, i: nat)
    requires i in p.inodes
  {
    forall b :: b in p.inodes[i] && b in p.lists ==> live[b] <= 1 && b !in p.meta
  }

  /** The inode shares a listed block with another one. */
  ghost predicate Shares(p: Plan, i: nat)
    requires i in p.inodes
  {
    exists j :: SharesWith(p, i, j)
  }

  predicate SharesWith(p: Plan, i: nat, j: nat)
    requires i in p.inodes
  {
    j != i && exists b :: b in p.inodes[i] && b in p.lists && j in p.lists[b].inodes
  }

  predicate ListsMeta(p: Plan, i: nat)
    requires i in p.inodes
  {
    exists b :: b in p.inodes[i] && b in p.lists && b in p.meta
  }

  /** One inode: left as it is, cloned, or deleted after the clone failed or was declined. */
  ghost function ResolveOne(p: Plan, a: Left, f: seq<nat>, i: nat, metaSeen: bool): Left
    requires i in p.inodes
  {
    if LooksOk(p, Shows(a), i) && (metaSeen || Shares(p, i)) then a
    else CloneOrDeleted(p.meta, a, f, p.cloneYes(i), p.deleteYes(i), Of(p.stores, i))
  }

  /** The inodes from `i` on. */
  ghost function RunFrom(p: Plan, files: Files, a: Left, i: nat, metaSeen: bool): Left
    decreases |files| - i
  {
    if i >= |files| then a
    else if i !in p.inodes then RunFrom(p, files, a, i + 1, metaSeen)
    else
      var seen := metaSeen || ListsMeta(p, i);
      RunFrom(p, files, ResolveOne(p, a, files[i], i, seen), i + 1, seen)
  }

  lemma {:induction false} RunEnds(p: Plan, files: Files)
    ensures forall a: Left, metaSeen :: RunFrom(p, files, a, |files|, metaSeen) == a
  {
  }

  // ---- If every pointer can be stored nothing is lost ----

  lemma {:induction false} CloneLosesNothing(meta: set<nat>, a: Left, f: seq<nat>, k: nat, stores: nat -> bool)
    requires k <= |f| && forall j: nat :: stores(j)
    ensures CloneFrom(meta, a, f, k, stores).0.lost == a.lost
    decreases |f| - k
  {
    if k < |f| {
      if !Needs(meta, Shows(a), f[k]) {
        CloneLosesNothing(meta, a, f, k + 1, stores);
      } else if a.free > 0 {
        CloneLosesNothing(meta, Left(a.claims - multiset{f[k]}, a.lost, a.free - 1), f, k + 1, stores);
      }
    }
  }

  lemma {:induction false} RunLosesNothing(p: Plan, files: Files, a: Left, i: nat, metaSeen: bool)
    requires a.lost == multiset{} && forall j: nat, k: nat :: p.stores(j, k)
    ensures RunFrom(p, files, a, i, metaSeen).lost == multiset{}
    decreases |files| - i
  {
    if i < |files| {
      if i !in p.inodes {
        RunLosesNothing(p, files, a, i + 1, metaSeen);
      } else {
        var seen := metaSeen || ListsMeta(p, i);
        if p.cloneYes(i) { CloneLosesNothing(p.meta, a, files[i], 0, Of(p.stores, i)); }
        RunLosesNothing(p, files, ResolveOne(p, a, files[i], i, seen), i + 1, seen);
      }
    }
  }

  // ---- When one clone loses a claim ----

  /** The pointer at `k` still needs a copy after all pointers before it that needed one were
      moved. */
  predicate StillDup(meta: set<nat>, claims: multiset<nat>, f: seq<nat>, k: nat)
    requires k < |f|
  {
    f[k] != 0 && (f[k] in meta || claims[f[k]] >= multiset(f[..k])[f[k]] + 2)
  }

  /** The number of such pointers before `k`. */
  function Copies(meta: set<nat>, claims: multiset<nat>, f: seq<nat>, k: nat): (n: nat)
    requires k <= |f|
    ensures n <= k
  {
    if k == 0 then 0
    else Copies(meta, claims, f, k - 1) + if StillDup(meta, claims, f, k - 1) then 1 else 0
  }

  /** The clone of a file loses the claim at `k`: there is a block for the copy, but it is the
      first pointer that cannot be stored, and not one to metadata. */
  predicate LosesAt(meta: set<nat>, claims: multiset<nat>, f: seq<nat>, free: nat, stores: nat -> bool, k: nat)
  {
    && k < |f| && StillDup(meta, claims, f, k) && f[k] !in meta && !stores(k)
    && free > Copies(meta, claims, f, k)
    && forall j :: 0 <= j < k && StillDup(meta, claims, f, j) ==> stores(j)
  }

  /** The claims on `b` after `c` pointers to it were looked at: the last one stays. */
  function LiveAt(n: nat, c: nat): nat {
    if n > c then n - c else if n > 0 then 1 else 0
  }

  /** The state of a clone at `k`, in terms of the state before it. */
  ghost predicate At(meta: set<nat>, claims: multiset<nat>, free: nat, f: seq<nat>, a: Left, k: nat)
  {
    && k <= |f| && a.lost == multiset{} && a.free + Copies(meta, claims, f, k) == free
    && forall b: nat :: b !in meta ==>
         a.claims[b] == if b == 0 then claims[0] else LiveAt(claims[b], multiset(f[..k])[b])
  }

  lemma {:induction false} PrefixMore(f: seq<nat>, k: nat)
    requires k < |f|
    ensures multiset(f[..k + 1]) == multiset(f[..k]) + multiset{f[k]}
    ensures multiset(f)[f[k]] > multiset(f[..k])[f[k]]
  {
    assert f[..k + 1] == f[..k] + [f[k]];
    assert f == f[..k + 1] + f[k + 1..];
  }

  lemma {:induction false} AtNext(meta: set<nat>, claims: multiset<nat>, free: nat, f: seq<nat>, a: Left, k: nat)
    requires At(meta, claims, free, f, a, k) && k < |f| && multiset(f) <= claims
    ensures Needs(meta, Shows(a), f[k]) <==> StillDup(meta, claims, f, k)
    ensures !StillDup(meta, claims, f, k) ==> At(meta, claims, free, f, a, k + 1)
    ensures StillDup(meta, claims, f, k) && a.free > 0 ==>
              At(meta, claims, free, f, Left(a.claims - multiset{f[k]}, a.lost, a.free - 1), k + 1)
  {
    PrefixMore(f, k);
    assert claims[f[k]] >= multiset(f)[f[k]];
    assert Shows(a) == a.claims;
  }

  lemma {:induction false} CloneFromLoses(meta: set<nat>, claims: multiset<nat>, free: nat, f: seq<nat>,
                                          a: Left, k: nat, stores: nat -> bool)
    requires At(meta, claims, free, f, a, k) && multiset(f) <= claims
    requires forall j :: 0 <= j < k && StillDup(meta, claims, f, j) ==> stores(j)
    ensures var (c, stop) := CloneFrom(meta, a, f, k, stores);
            LossTold(meta, claims, free, f, stores, c, stop)
    decreases |f| - k
  {
    hide LosesAt, StillDup, Copies, CloneFrom, Needs;
    if k < |f| {
      AtNext(meta, claims, free, f, a, k);
      CloneUnfolds(meta, a, f, k, stores);
      if !StillDup(meta, claims, f, k) {
        CloneFromLoses(meta, claims, free, f, a, k + 1, stores);
      } else if a.free > 0 && stores(k) {
        CloneFromLoses(meta, claims, free, f, Left(a.claims - multiset{f[k]}, a.lost, a.free - 1), k + 1, stores);
      } else {
        StopsHere(meta, claims, free, f, a, k, stores);
      }
    } else {
      CloneEnds(meta, a, f, stores);
      NeverStops(meta, claims, free, f, a, stores);
    }
  }

  lemma {:induction false} CloneUnfolds(meta: set<nat>, a: Left, f: seq<nat>, k: nat, stores: nat -> bool)
    requires k < |f|
    ensures CloneFrom(meta, a, f, k, stores) ==
            if !Needs(meta, Shows(a), f[k]) then CloneFrom(meta, a, f, k + 1, stores)
            else if a.free == 0 then (a, k)
            else if !stores(k) then (Left(a.claims, a.lost + Lost(meta, f[k]), a.free - 1), k)
            else CloneFrom(meta, Left(a.claims - multiset{f[k]}, a.lost, a.free - 1), f, k + 1, stores)
  {
  }

  /** The lost claim of a clone that stopped at `stop`. */
  ghost predicate LossTold(meta: set<nat>, claims: multiset<nat>, free: nat, f: seq<nat>,
                           stores: nat -> bool, c: Left, stop: nat)
  {
    && stop <= |f|
    && (LosesAt(meta, claims, f, free, stores, stop) <==> c.lost != multiset{})
    && (c.lost != multiset{} ==>
          && c.lost == multiset{f[stop]}
          && c.claims[f[stop]] == LiveAt(claims[f[stop]], multiset(f[..stop])[f[stop]]))
    && forall j: nat :: LosesAt(meta, claims, f, free, stores, j) ==> j == stop
  }

  lemma {:induction false} NeverStops(meta: set<nat>, claims: multiset<nat>, free: nat, f: seq<nat>,
                                      a: Left, stores: nat -> bool)
    requires At(meta, claims, free, f, a, |f|)
    requires forall j :: 0 <= j < |f| && StillDup(meta, claims, f, j) ==> stores(j)
    ensures LossTold(meta, claims, free, f, stores, a, |f|)
  {
  }

  lemma {:induction false} StopsHere(meta: set<nat>, claims: multiset<nat>, free: nat, f: seq<nat>,
                                     a: Left, k: nat, stores: nat -> bool)
    requires At(meta, claims, free, f, a, k) && k < |f| && StillDup(meta, claims, f, k)
    requires forall j :: 0 <= j < k && StillDup(meta, claims, f, j) ==> stores(j)
    requires a.free == 0 || !stores(k)
    ensures var c := if a.free == 0 then a else Left(a.claims, a.lost + Lost(meta, f[k]), a.free - 1);
            LossTold(meta, claims, free, f, stores, c, k)
  {
    CopiesGrow(meta, claims, f, k);
  }

  lemma {:induction false} CopiesGrow(meta: set<nat>, claims: multiset<nat>, f: seq<nat>, k: nat)
    requires k <= |f|
    ensures forall j :: k <= j <= |f| ==> Copies(meta, claims, f, j) >= Copies(meta, claims, f, k)
  {
    var j := k;
    while j < |f|
      invariant k <= j <= |f|
      invariant forall i :: k <= i <= j ==> Copies(meta, claims, f, i) >= Copies(meta, claims, f, k)
    {
      j := j + 1;
    }
  }

  /** The clone of a file whose claims are all counted loses one, and then exactly that one, if
      and only if there is a pointer at which it does. */
  lemma {:induction false} CloneLoses(meta: set<nat>, claims: multiset<nat>, free: nat, f: seq<nat>,
                                      stores: nat -> bool)
    requires multiset(f) <= claims
    ensures var c := CloneFrom(meta, Left(claims, multiset{}, free), f, 0, stores).0;
            && (c.lost != multiset{} <==> exists k: nat :: LosesAt(meta, claims, f, free, stores, k))
            && forall b :: b in c.lost ==> c.claims[b] >= 2
  {
    assert f[..0] == [];
    CloneFromLoses(meta, claims, free, f, Left(claims, multiset{}, free), 0, stores);
  }

  /** If the file is then deleted, its claims on the block are gone, the other claims stay, and
      if there are any one of them is not shown by the counters: with exactly one other claim
      the block is free although it is claimed. */
  lemma {:induction false} LostThenDeleted(meta: set<nat>, claims: multiset<nat>, free: nat, f: seq<nat>,
                                           stores: nat -> bool, k: nat)
    requires multiset(f) <= claims && LosesAt(meta, claims, f, free, stores, k)
    ensures var a := Left(claims, multiset{}, free);
            var r := DeleteRest(a, CloneFrom(meta, a, f, 0, stores).0, f);
            && CloneFrom(meta, a, f, 0, stores).1 == k
            && r.claims[f[k]] == claims[f[k]] - multiset(f)[f[k]]
            && r.lost == (if r.claims[f[k]] > 0 then multiset{f[k]} else multiset{})
            && (f[k] in r.claims && f[k] !in Shows(r) <==> claims[f[k]] == multiset(f)[f[k]] + 1)
  {
    var a, b := Left(claims, multiset{}, free), f[k];
    assert f[..0] == [];
    CloneFromLoses(meta, claims, free, f, a, 0, stores);
    CloneShrinks(meta, a, f, 0, stores);
    PrefixMore(f, k);
    var c := CloneFrom(meta, a, f, 0, stores).0;
    assert c.claims[b] == claims[b] - multiset(f[..k])[b];
    var rest := c.claims - (multiset(f) - (claims - c.claims));
    assert rest[b] == claims[b] - multiset(f)[b];
    assert multiset{b} * rest == if rest[b] > 0 then multiset{b} else multiset{};
  }
}
