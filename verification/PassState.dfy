/** What holds between two steps of pass 1D (e2fsck/pass1b.c), also after a pointer to a copy
    could not be stored, and that each step keeps it. */
module PassState {
  import opened Basics
  import opened DupBlocks
  import opened CloneSpec

  /** What pass 1D changes; `marks` is the block bitmap of the filesystem. */
  datatype State = State(files: Files, disk: Store, found: set<nat>, dup: set<nat>, marks: set<nat>,
                         clusters: Clusters)

  /** The claim that the counters still show, because its decrement is deferred. */
  function Pending(saved: Option<nat>): multiset<nat> {
    if saved.Some? then multiset{saved.value} else multiset{}
  }

  /** The books during a clone. */
  ghost predicate Cloning(c: State, meta: set<nat>, live: multiset<nat>, saved: Option<nat>) {
    && Accounts(c.clusters, c.dup, c.found, meta, live + Pending(saved))
    && (saved.Some? ==> saved.value in c.clusters && saved.value !in meta && live[saved.value] >= 1)
  }

  /** Every claimed block is known to the first bitmap. */
  ghost predicate Covered(c: State) {
    forall b :: b in Claimed(c.files) && b != 0 ==> b in c.found
  }

  /** Claims can be lost only on blocks that have a counter and are not metadata. */
  ghost predicate LostOk(lost: multiset<nat>, claimed: multiset<nat>, meta: set<nat>, keys: set<nat>) {
    lost <= claimed && forall b :: b in lost ==> b != 0 && b !in meta && b in keys
  }

  /** Of the blocks claimed and marked at the start exactly those of which the counters still
      show a claim are marked, besides metadata; and copies are marked. */
  ghost predicate MarkedRight(s: State, marks: set<nat>, meta: set<nat>, live: multiset<nat>) {
    && (forall b :: b != 0 && b in Claimed(s.files) && b in s.marks ==>
          (b in marks <==> b in meta || b in live))
    && (forall b :: b != 0 && b in live && b !in s.found ==> b in marks)
  }

  /** The claims on the blocks known at the start are those computed. */
  ghost predicate Matches(s: State, claimed: multiset<nat>, a: Left) {
    forall b :: b in s.found && b != 0 ==> claimed[b] == a.claims[b]
  }

  /** `c` is a state of the pass that began in `s`, where `a` was computed. */
  ghost predicate InPass(meta: set<nat>, s: State, c: State, a: Left, saved: Option<nat>) {
    && Covered(s) && s.clusters.Keys <= s.found
    && meta <= c.found && s.found <= c.found && c.dup <= s.dup && |c.files| == |s.files|
    && SameLists(s.clusters, c.clusters)
    && Covered(c)
    && LostOk(a.lost, Claimed(c.files), meta, s.clusters.Keys)
    && Cloning(c, meta, Claimed(c.files) - a.lost, saved)
    && Matches(s, Claimed(c.files), a)
    && MarkedRight(s, c.marks, meta, Claimed(c.files) - a.lost)
  }

  /** The parts of it that the steps of the pass look at. */
  lemma {:induction false} PassFacts(meta: set<nat>, s: State, c: State, a: Left, saved: Option<nat>)
    requires InPass(meta, s, c, a, saved)
    ensures Covered(s) && Covered(c) && meta <= c.found && s.found <= c.found
    ensures c.dup <= s.dup && c.dup <= c.found && |c.files| == |s.files|
    ensures SameLists(s.clusters, c.clusters) && Matches(s, Claimed(c.files), a)
    ensures forall b :: b in a.lost ==> b !in meta
  {
  }

  lemma {:induction false} PassCloning(meta: set<nat>, s: State, c: State, a: Left, saved: Option<nat>)
    requires InPass(meta, s, c, a, saved)
    ensures Cloning(c, meta, Claimed(c.files) - a.lost, saved)
  {
  }

  /** The pass begins. */
  lemma {:induction false} PassBegins(meta: set<nat>, s: State, free: nat)
    requires Accounts(s.clusters, s.dup, s.found, meta, Claimed(s.files))
    ensures InPass(meta, s, s, Left(Claimed(s.files), multiset{}, free), None)
  {
    var live := Claimed(s.files);
    assert live - multiset{} == live && live + Pending(None) == live;
  }

  /** The counters show the claims that are left. */
  lemma {:induction false} PassShows(meta: set<nat>, s: State, c: State, a: Left)
    requires InPass(meta, s, c, a, None)
    ensures Accounts(c.clusters, c.dup, c.found, meta, Claimed(c.files) - a.lost)
    ensures forall b :: b in s.found && b != 0 ==> (Claimed(c.files) - a.lost)[b] == Shows(a)[b]
  {
    var live := Claimed(c.files) - a.lost;
    assert live + Pending(None) == live;
  }

  /** Every pointer of the file is a hole or to a block known at the start. */
  predicate Known(s: State, f: seq<nat>) {
    forall k :: 0 <= k < |f| ==> f[k] == 0 || f[k] in s.found
  }

  /** The duplicate bit tells which pointers need a copy. */
  lemma {:induction false} NeedsIsDup(meta: set<nat>, s: State, c: State, a: Left, i: nat, k: nat)
    requires InPass(meta, s, c, a, None) && i < |c.files| && k < |c.files[i]|
    requires c.files[i][k] == 0 || c.files[i][k] in s.found
    ensures var b := c.files[i][k];
            && (b != 0 && b in c.dup <==> Needs(meta, Claimed(c.files) - a.lost, b))
            && (Needs(meta, Shows(a), b) <==> Needs(meta, Claimed(c.files) - a.lost, b))
  {
    var b, live := c.files[i][k], Claimed(c.files) - a.lost;
    PassShows(meta, s, c, a);
    ClaimedMember(c.files, i, k);
    if b in live && b != 0 {
      DupMeans(c.clusters, c.dup, c.found, meta, live, b);
    }
  }

  /** The deferred decrement was done. */
  lemma {:induction false} PassDec(meta: set<nat>, s: State, c: State, c': State, a: Left, saved: Option<nat>)
    requires InPass(meta, s, c, a, saved)
    requires c' == c.(clusters := c'.clusters, dup := c'.dup)
    requires c'.dup <= c.dup && SameLists(c.clusters, c'.clusters)
    requires Accounts(c'.clusters, c'.dup, c'.found, meta, Claimed(c.files) - a.lost)
    ensures InPass(meta, s, c', a, None)
  {
    var live := Claimed(c.files) - a.lost;
    assert live + Pending(None) == live;
  }

  /** The decrement was done for a claim that is still there. */
  lemma {:induction false} PassLoses(meta: set<nat>, s: State, c: State, c': State, a: Left, b: nat)
    requires InPass(meta, s, c, a, None) && (Claimed(c.files) - a.lost)[b] >= 2
    requires b != 0 && b !in meta && b in s.clusters
    requires c' == c.(clusters := c'.clusters, dup := c'.dup)
    requires c'.dup <= c.dup && SameLists(c.clusters, c'.clusters)
    requires Accounts(c'.clusters, c'.dup, c'.found, meta, Claimed(c.files) - a.lost - multiset{b})
    ensures InPass(meta, s, c', a.(lost := a.lost + multiset{b}), None)
  {
    var live := Claimed(c.files) - a.lost - multiset{b};
    assert Claimed(c.files) - (a.lost + multiset{b}) == live && live + Pending(None) == live;
  }

  /** The state after block `k` of a file was copied, but the pointer not stored. */
  function Copied(c: State, i: nat, k: nat, copy: nat): State
    requires i < |c.files| && k < |c.files[i]|
  {
    c.(disk := c.disk[copy := ReadBlock(c.disk, c.files[i][k])], found := c.found + {copy},
       marks := c.marks + {copy})
  }

  lemma {:induction false} PassCopied(meta: set<nat>, s: State, c: State, a: Left, i: nat, k: nat, copy: nat)
    requires InPass(meta, s, c, a, None) && i < |c.files| && k < |c.files[i]|
    requires copy != 0 && copy !in c.found && a.free > 0
    ensures InPass(meta, s, Copied(c, i, k, copy), a.(free := a.free - 1), None)
  {
    var live := Claimed(c.files) - a.lost;
    assert live + Pending(None) == live && copy !in live;
    AddFreshClaim(c.clusters, c.dup, c.found, meta, live, copy);
  }

  /** And after the pointer was stored: the books show one claim more, unless it was on
      metadata. */
  lemma {:induction false} PassStored(meta: set<nat>, s: State, c: State, a: Left, i: nat, k: nat, copy: nat)
    requires InPass(meta, s, c, a, None) && i < |c.files| && k < |c.files[i]|
    requires copy != 0 && copy !in c.found && a.free > 0
    requires var b := c.files[i][k]; b in s.found && Needs(meta, Claimed(c.files) - a.lost, b)
    ensures var b := c.files[i][k];
            InPass(meta, s, Copied(c, i, k, copy).(files := SetPointer(c.files, i, k, copy)),
                   Left(a.claims - multiset{b}, a.lost, a.free - 1), if b in meta then None else Some(b))
  {
    var b := c.files[i][k];
    var live := Claimed(c.files) - a.lost;
    PassShows(meta, s, c, a);
    ClaimedMove(c.files, i, k, copy);
    StoredLost(s, Claimed(c.files), a, meta, b, copy, c.found);
    DupMeans(c.clusters, c.dup, c.found, meta, live, b);
    AddFreshClaim(c.clusters, c.dup, c.found, meta, live, copy);
    MovedClaim(Copied(c, i, k, copy), meta, live, b, copy);
    StoredMarks(s, c.marks, meta, live, b, copy, c.found);
  }

  lemma {:induction false} StoredLost(s: State, claims: multiset<nat>, a: Left, meta: set<nat>, b: nat,
                                      copy: nat, found: set<nat>)
    requires LostOk(a.lost, claims, meta, s.clusters.Keys) && Matches(s, claims, a)
    requires b in claims && b in s.found && Needs(meta, claims - a.lost, b)
    requires copy !in found && s.found <= found && s.clusters.Keys <= s.found
    requires forall x :: x in claims && x != 0 ==> x in found
    requires copy != 0
    ensures var moved := claims - multiset{b} + multiset{copy};
            && moved - a.lost == claims - a.lost - multiset{b} + multiset{copy}
            && LostOk(a.lost, moved, meta, s.clusters.Keys)
            && Matches(s, moved, a.(claims := a.claims - multiset{b}))
    ensures b in claims - a.lost && copy !in claims - a.lost
  {
    assert copy !in claims && copy !in a.lost;
    assert b in meta ==> b !in a.lost;
  }

  lemma {:induction false} StoredMarks(s: State, marks: set<nat>, meta: set<nat>, live: multiset<nat>,
                                       b: nat, copy: nat, found: set<nat>)
    requires MarkedRight(s, marks, meta, live) && (b in meta || live[b] >= 2) && b in s.found
    requires copy !in found && s.found <= found && Covered(s)
    ensures MarkedRight(s, marks + {copy}, meta, live - multiset{b} + multiset{copy})
  {
  }

  lemma {:induction false} MovedClaim(c: State, meta: set<nat>, live: multiset<nat>, b: nat, copy: nat)
    requires Accounts(c.clusters, c.dup, c.found, meta, live + multiset{copy})
    requires b in c.dup && b in live && b != copy
    ensures Cloning(c, meta, live - multiset{b} + multiset{copy}, if b in meta then None else Some(b))
  {
    var moved := live - multiset{b} + multiset{copy};
    if b in meta {
      DropMetaClaim(c.clusters, c.dup, c.found, meta, live + multiset{copy}, b, 0);
      assert live + multiset{copy} - multiset{b} == moved && moved + Pending(None) == moved;
    } else {
      assert moved + multiset{b} == live + multiset{copy};
    }
  }

  /** The bitmap after the claims `f` were dropped, `live` being those that are left. */
  ghost predicate Freed(marks: set<nat>, before: set<nat>, meta: set<nat>, f: seq<nat>, live: multiset<nat>) {
    forall b :: b in marks <==> b in before && !(b != 0 && b !in meta && b in f && b !in live)
  }

  /** A file was deleted of which the clone had left `a`. */
  lemma {:induction false} PassDeleted(meta: set<nat>, s: State, c: State, c': State, a0: Left, a: Left,
                                       i: nat, f: seq<nat>)
    requires InPass(meta, s, c, a, None) && i < |c.files|
    requires Parted(s, multiset(c.files[i]), multiset(f), a0, a)
    requires c'.files == c.files[i := []] && c'.found == c.found && c'.dup <= c.dup
    requires SameLists(c.clusters, c'.clusters)
    requires var live := Claimed(c.files) - a.lost - multiset(c.files[i]);
             Accounts(c'.clusters, c'.dup, c'.found, meta, live) && Freed(c'.marks, c.marks, meta, c.files[i], live)
    ensures InPass(meta, s, c', DeleteRest(a0, a, f), None)
  {
    DeletedClaims(s, c.files, c'.files, a0, a, i, f);
    DeletedLost(s, c.files, c'.files, a, DeleteRest(a0, a, f), i, meta);
    var live := Claimed(c.files) - a.lost - multiset(c.files[i]);
    assert live + Pending(None) == live;
    DeletedMarks(s, c.marks, c'.marks, meta, Claimed(c.files) - a.lost, c.files[i], live);
  }

  lemma {:induction false} DeletedClaims(s: State, files: Files, files': Files, a0: Left, a: Left, i: nat, f: seq<nat>)
    requires i < |files| && files' == files[i := []] && Matches(s, Claimed(files), a)
    requires Parted(s, multiset(files[i]), multiset(f), a0, a)
    ensures Matches(s, Claimed(files'), DeleteRest(a0, a, f))
  {
    var r := DeleteRest(a0, a, f);
    ClaimedUpdate(files, i, []);
    forall b | b in s.found && b != 0 ensures Claimed(files')[b] == r.claims[b] {
      assert multiset(files[i])[b] + a0.claims[b] == multiset(f)[b] + a.claims[b];
    }
  }

  lemma {:induction false} DeletedLost(s: State, files: Files, files': Files, a: Left, r: Left, i: nat, meta: set<nat>)
    requires i < |files| && files' == files[i := []]
    requires LostOk(a.lost, Claimed(files), meta, s.clusters.Keys) && s.clusters.Keys <= s.found
    requires r.lost == a.lost * r.claims && Matches(s, Claimed(files'), r)
    ensures LostOk(r.lost, Claimed(files'), meta, s.clusters.Keys)
    ensures Claimed(files') - r.lost == Claimed(files) - a.lost - multiset(files[i])
    ensures forall b :: b in Claimed(files') ==> b in Claimed(files)
  {
    ClaimedUpdate(files, i, []);
    DeletedLive(s, Claimed(files), multiset(files[i]), Claimed(files'), a.lost, r);
    assert forall b :: b in r.lost ==> b in a.lost;
  }

  /** The pointers `f` of a file have become `g`, as the claims `a0` have become `a`. */
  ghost predicate Parted(s: State, g: multiset<nat>, f: multiset<nat>, a0: Left, a: Left) {
    forall b :: b in s.found && b != 0 ==> a.claims[b] <= a0.claims[b] && g[b] + a0.claims[b] == f[b] + a.claims[b]
  }

  lemma {:induction false} DeletedLive(s: State, before: multiset<nat>, g: multiset<nat>, claimed: multiset<nat>,
                                       lost: multiset<nat>, r: Left)
    requires claimed == before - g && g <= before && lost <= before
    requires forall b :: b in lost ==> b in s.found && b != 0
    requires r.lost == lost * r.claims && Matches(s, claimed, r)
    ensures claimed - r.lost == before - lost - g && r.lost <= claimed
  {
    forall b: nat ensures (claimed - r.lost)[b] == (before - lost - g)[b] && r.lost[b] <= claimed[b] {
      if b in lost { assert claimed[b] == r.claims[b]; }
    }
  }

  lemma {:induction false} DeletedMarks(s: State, before: set<nat>, marks: set<nat>, meta: set<nat>,
                                        shown: multiset<nat>, f: seq<nat>, live: multiset<nat>)
    requires MarkedRight(s, before, meta, shown) && Freed(marks, before, meta, f, live)
    requires live == shown - multiset(f)
    ensures MarkedRight(s, marks, meta, live)
  {
    forall b ensures b in live <==> b in shown && shown[b] > multiset(f)[b] {
    }
    forall b | b !in f ensures multiset(f)[b] == 0 {
    }
  }

  /** The books are right if and only if every lost claim is the only one on its block: with
      the claim no longer shown the counter and the bit look the same. */
  lemma {:induction false} BooksRight(meta: set<nat>, s: State, c: State, a: Left)
    requires InPass(meta, s, c, a, None)
    ensures Accounts(c.clusters, c.dup, c.found, meta, Claimed(c.files)) <==>
              forall b :: b in a.lost ==> Claimed(c.files)[b] == 1
  {
    PassShows(meta, s, c, a);
    BooksRightFor(meta, c, Claimed(c.files), a.lost);
  }

  lemma {:induction false} LostKnown(meta: set<nat>, s: State, c: State, a: Left)
    requires InPass(meta, s, c, a, None)
    ensures forall b :: b in a.lost ==>
              b in s.found && b != 0 && b in Claimed(c.files) && Claimed(c.files)[b] == a.claims[b]
  {
  }

  lemma {:induction false} BooksRightFor(meta: set<nat>, c: State, claimed: multiset<nat>, lost: multiset<nat>)
    requires Accounts(c.clusters, c.dup, c.found, meta, claimed - lost) && lost <= claimed
    requires forall b :: b in lost ==> b !in meta && b in c.clusters
    requires forall b :: b in claimed && b != 0 ==> b in c.found
    ensures Accounts(c.clusters, c.dup, c.found, meta, claimed) <==> forall b :: b in lost ==> claimed[b] == 1
  {
    if forall b :: b in lost ==> claimed[b] == 1 {
      forall b: nat ensures Shown((claimed - lost)[b]) == Shown(claimed[b])
                            && ((claimed - lost)[b] >= 2 <==> claimed[b] >= 2)
                            && (b !in lost ==> (claimed - lost)[b] == claimed[b])
      {
        if b in lost { assert claimed[b] == 1; }
      }
    } else {
      var b :| b in lost && claimed[b] != 1;
      assert c.clusters[b].numBad == Shown((claimed - lost)[b]) < claimed[b];
    }
  }
}
