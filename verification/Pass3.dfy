/** Connecting every directory to the root (e2fsck/pass3.c).  The directory that really contains
    an entry for another one (`link`) is kept apart from the parent in the table, which is
    overwritten when only `..` is repaired. */
module Pass3 {

  const MAX_DEPTH: nat := 2048

  // ---- The containing-directory relation ----

  /** For every directory the one that contains it, or 0. */
  type Links = map<nat, nat>

  /** Following the links `n` times from `d` arrives at the root, for the first time. */
  ghost predicate Climbs(link: Links, root: nat, d: nat, n: nat)
    decreases n
  {
    if n == 0 then d == root
    else d != root && d in link && link[d] != 0 && Climbs(link, root, link[d], n - 1)
  }

  ghost predicate Reaches(link: Links, root: nat, d: nat) {
    exists n: nat :: Climbs(link, root, d, n)
  }

  /** Links lead only to directories. */
  predicate Closed(link: Links) {
    forall d :: d in link && link[d] != 0 ==> link[d] in link
  }

  /** Every link, except the root's own, leads to a directory of lower rank. */
  ghost predicate Ranked(link: Links, root: nat, rank: map<nat, nat>) {
    && link.Keys <= rank.Keys
    && forall d :: d in link && d != root && link[d] != 0 ==>
         link[d] in rank && rank[link[d]] < rank[d]
  }

  /** There is no cycle of links that avoids the root. */
  ghost predicate Acyclic(link: Links, root: nat) {
    exists rank: map<nat, nat> :: Ranked(link, root, rank)
  }

  /** Every directory without a link is linked into lost+found. */
  function Connected(link: Links, root: nat, lf: nat): Links {
    map d | d in link :: if d != root && link[d] == 0 then lf else link[d]
  }

  lemma {:induction false} RankedReaches(link: Links, root: nat, rank: map<nat, nat>, d: nat)
    requires Ranked(link, root, rank) && Closed(link) && d in link
    requires forall x :: x in link && x != root ==> link[x] != 0
    ensures Reaches(link, root, d)
    decreases rank[d]
  {
    if d == root {
      assert Climbs(link, root, d, 0);
    } else {
      RankedReaches(link, root, rank, link[d]);
      var n: nat :| Climbs(link, root, link[d], n);
      assert Climbs(link, root, d, n + 1);
    }
  }

  lemma {:induction false} ClimbsUnique(link: Links, root: nat, d: nat, m: nat, n: nat)
    requires Climbs(link, root, d, m) && Climbs(link, root, d, n)
    ensures m == n
    decreases m
  {
    if m > 0 && n > 0 {
      ClimbsUnique(link, root, link[d], m - 1, n - 1);
    }
  }

  ghost function Depth(link: Links, root: nat, d: nat): (n: nat)
    requires Reaches(link, root, d)
    ensures Climbs(link, root, d, n)
  {
    var n: nat :| Climbs(link, root, d, n); n
  }

  /** Once everything is linked: all directories reach the root exactly if there was no cycle. */
  lemma {:induction false} ConnectedReaches(link: Links, root: nat, lf: nat)
    requires Closed(link) && LostAndFoundOk(link, root, lf)
    ensures (forall d :: d in link ==> Reaches(Connected(link, root, lf), root, d)) <==> Acyclic(link, root)
  {
    var all := Connected(link, root, lf);
    if Acyclic(link, root) {
      var rank: map<nat, nat> :| Ranked(link, root, rank);
      var high := LiftedRank(link, root, lf, rank);
      forall d | d in link ensures Reaches(all, root, d) {
        RankedReaches(all, root, high, d);
      }
    }
    if forall d :: d in link ==> Reaches(all, root, d) {
      DepthRanks(link, root, lf);
    }
  }

  /** Ranks that put the root and lost+found below everything else. */
  lemma {:induction false} LiftedRank(link: Links, root: nat, lf: nat, rank: map<nat, nat>)
    returns (high: map<nat, nat>)
    requires Ranked(link, root, rank) && Closed(link) && LostAndFoundOk(link, root, lf)
    ensures Ranked(Connected(link, root, lf), root, high)
  {
    high := map d | d in link :: if d == root then 0 else if d == lf then 1 else rank[d] + 2;
  }

  lemma {:induction false} DepthRanks(link: Links, root: nat, lf: nat)
    requires Closed(link)
    requires forall d :: d in link ==> Reaches(Connected(link, root, lf), root, d)
    ensures Acyclic(link, root)
  {
    var all := Connected(link, root, lf);
    var rank := map d | d in link :: Depth(all, root, d);
    forall d | d in link && d != root && link[d] != 0 ensures rank[link[d]] < rank[d] {
      ClimbsUnique(all, root, link[d], rank[link[d]], rank[d] - 1);
    }
    assert Ranked(link, root, rank);
  }

  // ---- The pass ----

  /** The answers given: may a directory be connected, may its `..` be repaired. */
  datatype Answers = Answers(connect: nat -> bool, fixDotdot: nat -> bool)

  /** The table of parents, what `..` of each directory says, inode_done_map, and which directory
      really contains each one. */
  datatype Tables = Tables(parent: map<nat, nat>, dotdot: map<nat, nat>, done: set<nat>, ghost link: Links)

  /** What holds after every step, `visited` being the directories looked at so far: exactly
      the done ones without a link have been linked into lost+found, the table shows the link
      of what was not looked at, and `..` of what was looked at is right. */
  ghost predicate Good(t: Tables, root: nat, lf: nat, link0: Links, visited: set<nat>, yes: Answers) {
    && visited <= t.done && root in t.done
    && t.parent.Keys == link0.Keys && t.dotdot.Keys == link0.Keys && t.link.Keys == link0.Keys
    && (forall d :: d in link0 ==> t.link[d] == LinkAfter(link0, root, lf, d, t.done, yes))
    && (forall d :: d in link0 && d !in visited ==> t.parent[d] == t.link[d])
    && (Closed(link0) ==>
          forall d :: d in link0 && d in visited && yes.fixDotdot(d) ==> t.dotdot[d] == t.link[d])
  }

  lemma {:induction false} GoodParent(t: Tables, root: nat, lf: nat, link0: Links, visited: set<nat>, yes: Answers,
                                      ino: nat)
    requires Good(t, root, lf, link0, visited, yes) && ino !in t.done
    ensures t.parent.Keys == link0.Keys && ino != root && ino !in visited
    ensures ino in link0 ==> t.parent[ino] == link0[ino]
  {
  }

  /** A directory with a link, or one that may not be connected, is done as it is. */
  lemma {:induction false} GoodDone(t: Tables, root: nat, lf: nat, link0: Links, visited: set<nat>, yes: Answers,
                                    ino: nat)
    requires Good(t, root, lf, link0, visited, yes)
    requires ino in link0 && ino !in t.done ==> link0[ino] != 0 || !yes.connect(ino)
    ensures Good(t.(done := t.done + {ino}), root, lf, link0, visited, yes)
  {
  }

  lemma {:induction false} GoodConnected(t: Tables, root: nat, lf: nat, link0: Links, visited: set<nat>, yes: Answers,
                                         ino: nat)
    requires Good(t, root, lf, link0, visited, yes)
    requires ino in link0 && ino !in t.done && link0[ino] == 0 && yes.connect(ino)
    ensures Good(Tables(t.parent[ino := lf], t.dotdot[ino := lf], t.done + {ino}, t.link[ino := lf]),
                 root, lf, link0, visited, yes)
  {
    var u := Tables(t.parent[ino := lf], t.dotdot[ino := lf], t.done + {ino}, t.link[ino := lf]);
    assert ino !in visited;
    forall d | d in link0 ensures u.link[d] == LinkAfter(link0, root, lf, d, u.done, yes) {
      assert d != ino ==> u.link[d] == t.link[d];
    }
  }

  /** A directory whose `..` was compared with the table, and repaired if that was allowed. */
  lemma {:induction false} GoodVisited(t: Tables, root: nat, lf: nat, link0: Links, visited: set<nat>, yes: Answers,
                                       dir: nat, fixed: bool)
    requires Good(t, root, lf, link0, visited, yes) && dir in link0 && dir in t.done && dir !in visited
    requires fixed || t.dotdot[dir] == t.parent[dir] || !yes.fixDotdot(dir)
    ensures var u := if fixed then
                       Tables(t.parent[dir := lf], t.dotdot[dir := t.parent[dir]], t.done, t.link) else t;
            Good(u, root, lf, link0, visited + {dir}, yes)
  {
  }

  /** Within `n` steps up through directories that are not done, one is missing in the table. */
  predicate Lost(parent: map<nat, nat>, done: set<nat>, d: nat, n: nat)
    decreases n
  {
    if n == 0 || d in done then false
    else if d !in parent then true
    else parent[d] != 0 && Lost(parent, done + {d}, parent[d], n - 1)
  }

  lemma {:induction false} ClosedNotLost(link0: Links, parent: map<nat, nat>, done: set<nat>, d: nat, n: nat)
    requires Closed(link0) && parent.Keys == link0.Keys && d in link0
    requires forall x :: x in parent && x !in done ==> parent[x] == link0[x]
    ensures !Lost(parent, done, d, n)
    decreases n
  {
    if n > 0 && d !in done && parent[d] != 0 {
      ClosedNotLost(link0, parent, done + {d}, parent[d], n - 1);
    }
  }

  class Checker {
    const root: nat
    const lf: nat              // lost+found
    var parent: map<nat, nat>
    var dotdot: map<nat, nat>
    var done: set<nat>
    ghost var link: Links

    constructor (root: nat, lf: nat, parent: map<nat, nat>, dotdot: map<nat, nat>)
      ensures this.root == root && this.lf == lf && this.parent == parent && this.dotdot == dotdot
      ensures done == {} && link == parent
    {
      this.root, this.lf, this.parent, this.dotdot := root, lf, parent, dotdot;
      done, link := {}, parent;
    }

    ghost function Now(): Tables
      reads this
    {
      Tables(parent, dotdot, done, link)
    }

    ghost predicate GoodNow(link0: Links, visited: set<nat>, yes: Answers)
      reads this
    {
      Good(Now(), root, lf, link0, visited, yes)
    }

    /** e2fsck_reconnect_file, then fix_dotdot with lost+found as the parent. */
    method Reconnect(ino: nat, ghost link0: Links, ghost visited: set<nat>, ghost yes: Answers)
      requires ino in link0 && ino !in done && link0[ino] == 0 && yes.connect(ino)
      requires GoodNow(link0, visited, yes)
      modifies this`done, this`parent, this`dotdot, this`link
      ensures GoodNow(link0, visited, yes) && done == old(done) + {ino}
      ensures link == old(link)[ino := lf] && dotdot == old(dotdot)[ino := lf]
    {
      hide Good;
      GoodConnected(Now(), root, lf, link0, visited, yes, ino);
      done := done + {ino};
      link := link[ino := lf];
      FixDotdot(ino, lf);
    }

    /** fix_dotdot: `..` gets the parent given, the table lost+found. */
    method FixDotdot(ino: nat, to: nat)
      modifies this`parent, this`dotdot
      ensures dotdot == old(dotdot)[ino := to] && parent == old(parent)[ino := lf]
    {
      dotdot := dotdot[ino := to];
      parent := parent[ino := lf];
    }

    /** check_directory.  It fails if and only if the walk up comes to a directory that is not in the
        table; else `..` then says what the table says, if it may be repaired. */
    method CheckDirectory(dir: nat, yes: Answers, ghost link0: Links, ghost visited: set<nat>)
      returns (found: bool)
      requires GoodNow(link0, visited, yes) && dir in link0 && dir !in visited
      modifies this
      ensures found <==> !Lost(old(parent), old(done), dir, MAX_DEPTH + 2)
      ensures GoodNow(link0, visited + {dir}, yes)
      ensures Closed(link0) ==> found
    {
      hide Good, Lost, Closed;
      found := Walk(dir, yes, link0, visited);
      GoodKeys(Now(), root, lf, link0, visited, yes);
      if !found {
        GoodUnless(Now(), root, lf, link0, visited, yes, dir);
        return;
      }
      ghost var t, fixed := Now(), dotdot[dir] != parent[dir] && yes.fixDotdot(dir);
      if dotdot[dir] != parent[dir] && yes.fixDotdot(dir) {
        FixDotdot(dir, parent[dir]);
      }
      GoodVisited(t, root, lf, link0, visited, yes, dir, fixed);
    }

    /** The walk up.  It ends: it goes on only from directories that were not done, and when after
        MAX_DEPTH + 2 of them it turns to loop detection it starts again at the first one, which
        is done, so that it ends at once. */
    method Walk(dir: nat, yes: Answers, ghost link0: Links, ghost visited: set<nat>)
      returns (found: bool)
      requires GoodNow(link0, visited, yes) && dir in link0
      modifies this
      ensures GoodNow(link0, visited, yes) && dir in done && old(done) <= done
      ensures |done - old(done)| <= MAX_DEPTH + 2
      ensures found <==> !Lost(old(parent), old(done), dir, MAX_DEPTH + 2)
      ensures Closed(link0) ==> found
    {
      hide Good, Closed, LinkAfter;
      ghost var parent0, done0 := parent, done;
      WalkBegins(Now(), root, lf, link0, visited, yes, dir);
      var ino, loopPass, parentCount := dir, false, 0;
      var loopDetect: set<nat> := {};
      while ino !in done
        invariant GoodNow(link0, visited, yes) && parent == parent0
        invariant ino == dir || dir in done
        invariant loopPass ==> ino in done
        invariant done0 <= done && |done - done0| <= parentCount <= MAX_DEPTH + 2
        invariant Lost(parent0, done0, dir, MAX_DEPTH + 2) ==
                  (!loopPass && Lost(parent, done, ino, MAX_DEPTH + 2 - parentCount))
        invariant !loopPass ==> parentCount < MAX_DEPTH + 2
        decreases link0.Keys - done, ino !in done
      {
        GoodParent(Now(), root, lf, link0, visited, yes, ino);
        OneMore(done, done0, ino);
        if ino !in parent {
          GoodDone(Now(), root, lf, link0, visited, yes, ino);
          done := done + {ino};
          return false;
        }
        var up := parent[ino];
        if up == 0 || (loopPass && up in loopDetect) {
          if yes.connect(ino) {
            Reconnect(ino, link0, visited, yes);
          }
          GoodDone(Now(), root, lf, link0, visited, yes, ino);
          done := done + {ino};
          break;
        }
        GoodDone(Now(), root, lf, link0, visited, yes, ino);
        done := done + {ino};
        ino := up;
        if loopPass {
          loopDetect := loopDetect + {ino};
        } else if parentCount > MAX_DEPTH {
          loopPass, loopDetect := true, {};
          ino := dir;
        }
        parentCount := parentCount + 1;
      }
      return true;
    }

    /** The outer loop of pass 3 over the directories of the table.  If every question is
        answered yes, then afterwards every directory reaches the root exactly if there was no
        cycle before: cycles are not broken.  And `..` names the containing directory. */
    method Pass(dirs: seq<nat>, yes: Answers)
      requires link == parent && dotdot.Keys == parent.Keys
      requires forall d :: d in dirs <==> d in parent
      requires forall i, j :: 0 <= i < j < |dirs| ==> dirs[i] != dirs[j]
      modifies this
      ensures link.Keys == old(link).Keys && dotdot.Keys == old(link).Keys
      ensures forall d :: d in old(link) ==>
                link[d] == if d != root && old(link)[d] == 0 && yes.connect(d) then lf else old(link)[d]
      ensures Closed(old(link)) ==> forall d :: d in link && yes.fixDotdot(d) ==> dotdot[d] == link[d]
      ensures Closed(old(link)) && LostAndFoundOk(old(link), root, lf) && (forall d: nat :: yes.connect(d)) ==>
                ((forall d :: d in link ==> Reaches(link, root, d)) <==> Acyclic(old(link), root))
    {
      ghost var link0 := link;
      done := {root};
      CheckAll(dirs, yes, link0);
      PassConnects(link0, link, root, lf, done, yes);
    }

    method CheckAll(dirs: seq<nat>, yes: Answers, ghost link0: Links)
      requires GoodNow(link0, {}, yes)
      requires forall d :: d in dirs <==> d in link0
      requires forall i, j :: 0 <= i < j < |dirs| ==> dirs[i] != dirs[j]
      modifies this
      ensures GoodNow(link0, link0.Keys, yes)
    {
      hide Good, Lost, Closed, FirstOf;
      FirstOfAll(dirs, link0);
      for i := 0 to |dirs|
        invariant GoodNow(link0, FirstOf(dirs, i), yes)
      {
        FirstOfMore(dirs, i);
        var found := CheckDirectory(dirs[i], yes, link0, FirstOf(dirs, i));
      }
    }
  }

  lemma {:induction false} OneMore(done: set<nat>, done0: set<nat>, ino: nat)
    requires done0 <= done && ino !in done
    ensures |done + {ino} - done0| == |done - done0| + 1
  {
    assert done + {ino} - done0 == (done - done0) + {ino};
  }

  lemma {:induction false} WalkBegins(t: Tables, root: nat, lf: nat, link0: Links, visited: set<nat>, yes: Answers,
                                      dir: nat)
    requires Good(t, root, lf, link0, visited, yes) && dir in link0
    ensures Closed(link0) ==> !Lost(t.parent, t.done, dir, MAX_DEPTH + 2)
  {
    if Closed(link0) {
      ClosedNotLost(link0, t.parent, t.done, dir, MAX_DEPTH + 2);
    }
  }

  lemma {:induction false} GoodKeys(t: Tables, root: nat, lf: nat, link0: Links, visited: set<nat>, yes: Answers)
    requires Good(t, root, lf, link0, visited, yes)
    ensures t.parent.Keys == link0.Keys && t.dotdot.Keys == link0.Keys
  {
  }

  /** Without closed links nothing is said of `..`. */
  lemma {:induction false} GoodUnless(t: Tables, root: nat, lf: nat, link0: Links, visited: set<nat>, yes: Answers,
                                      dir: nat)
    requires Good(t, root, lf, link0, visited, yes) && dir in t.done && !Closed(link0)
    ensures Good(t, root, lf, link0, visited + {dir}, yes)
  {
  }

  ghost function FirstOf(dirs: seq<nat>, i: nat): set<nat>
    requires i <= |dirs|
  {
    set k | 0 <= k < i :: dirs[k]
  }

  lemma {:induction false} FirstOfMore(dirs: seq<nat>, i: nat)
    requires i < |dirs| && forall j, k :: 0 <= j < k < |dirs| ==> dirs[j] != dirs[k]
    ensures dirs[i] !in FirstOf(dirs, i) && FirstOf(dirs, i + 1) == FirstOf(dirs, i) + {dirs[i]}
    ensures dirs[i] in dirs
  {
  }

  lemma {:induction false} FirstOfAll(dirs: seq<nat>, link0: Links)
    requires forall d :: d in dirs <==> d in link0
    ensures FirstOf(dirs, 0) == {} && FirstOf(dirs, |dirs|) == link0.Keys
  {
    assert forall k :: 0 <= k < |dirs| ==> dirs[k] in dirs;
  }

  lemma {:induction false} PassConnects(link0: Links, link: Links, root: nat, lf: nat, done: set<nat>,
                                        yes: Answers)
    requires link.Keys == link0.Keys && link0.Keys <= done
    requires forall d :: d in link0 ==> link[d] == LinkAfter(link0, root, lf, d, done, yes)
    ensures Closed(link0) && LostAndFoundOk(link0, root, lf) && (forall d: nat :: yes.connect(d)) ==>
              ((forall d :: d in link ==> Reaches(link, root, d)) <==> Acyclic(link0, root))
  {
    if LostAndFoundOk(link0, root, lf) && Closed(link0) && forall d: nat :: yes.connect(d) {
      assert link == Connected(link0, root, lf);
      ConnectedReaches(link0, root, lf);
    }
  }

  predicate LostAndFoundOk(link: Links, root: nat, lf: nat) {
    root != 0 && lf != 0 && lf != root && root in link && lf in link && link[lf] == root
  }

  /** The link of a directory when the directories in `done` have been dealt with. */
  function LinkAfter(link0: Links, root: nat, lf: nat, d: nat, done: set<nat>, yes: Answers): nat
    requires d in link0
  {
    if d in done && d != root && link0[d] == 0 && yes.connect(d) then lf else link0[d]
  }
}
