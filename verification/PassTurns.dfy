/** Which files pass 1D (e2fsck/pass1b.c) leaves alone: at the turn of a file the files before it
    have been dealt with, and those from it on are as they were. */
module PassTurns {
  import opened DupBlocks

  /** None of the blocks of the file is metadata or has more than one of the claims `live`. */
  ghost predicate Alone(meta: set<nat>, live: multiset<nat>, f: seq<nat>) {
    forall k :: 0 <= k < |f| && f[k] != 0 ==> f[k] !in meta && live[f[k]] <= 1
  }

  /** The file has no block twice. */
  ghost predicate Once(f: seq<nat>) {
    forall k :: 0 <= k < |f| && f[k] != 0 ==> multiset(f)[f[k]] == 1
  }

  /** The files at the turn of file `i`. */
  function AtTurn(before: Files, after: Files, i: nat): Files
    requires i <= |before| == |after|
  {
    after[..i] + before[i..]
  }

  /** At its turn no block of file `i` is metadata or claimed again. */
  ghost predicate AloneAt(meta: set<nat>, before: Files, after: Files, i: nat)
    requires i < |before| == |after|
  {
    Alone(meta, Claimed(AtTurn(before, after, i)), before[i])
  }

  /** Of the first `n` files, those alone at their turn have kept their pointers. */
  ghost predicate KeptAlone(meta: set<nat>, before: Files, after: Files, n: nat) {
    && n <= |before| == |after|
    && forall i :: 0 <= i < n ==> (AloneAt(meta, before, after, i) ==> after[i] == before[i])
  }

  /** Of the first `n` files, those alone at their turn are as they were and the others deleted. */
  ghost predicate KeptOnlyAlone(meta: set<nat>, before: Files, after: Files, n: nat) {
    && n <= |before| == |after|
    && forall i :: 0 <= i < n ==> after[i] == (if AloneAt(meta, before, after, i) then before[i] else [])
  }

  lemma {:induction false} AloneOnce(meta: set<nat>, files: Files, i: nat, lost: multiset<nat>)
    requires i < |files| && Alone(meta, Claimed(files), files[i])
    ensures Once(files[i]) && Alone(meta, Claimed(files) - lost, files[i])
  {
    ClaimedUpdate(files, i, []);
    forall k | 0 <= k < |files[i]| && files[i][k] != 0 ensures multiset(files[i])[files[i][k]] == 1 {
      assert files[i][k] in multiset(files[i]);
    }
  }

  /** The turn of file `n`, which changes that file only. */
  lemma {:induction false} NextTurn(meta: set<nat>, before: Files, mid: Files, after: Files, n: nat)
    requires n < |before| == |mid| == |after|
    requires forall j :: 0 <= j < |before| ==> (j >= n ==> mid[j] == before[j]) && (j != n ==> after[j] == mid[j])
    ensures AtTurn(before, after, n) == mid && AtTurn(before, mid, n) == mid
    ensures forall i :: 0 <= i < n ==> AtTurn(before, after, i) == AtTurn(before, mid, i)
  {
    forall i | 0 <= i < n ensures AtTurn(before, after, i) == AtTurn(before, mid, i) {
      assert after[..i] == mid[..i];
    }
  }

  lemma {:induction false} TurnKept(meta: set<nat>, before: Files, mid: Files, after: Files, n: nat)
    requires n < |before| == |mid| == |after|
    requires forall j :: 0 <= j < |before| ==> (j >= n ==> mid[j] == before[j]) && (j != n ==> after[j] == mid[j])
    requires KeptAlone(meta, before, mid, n) && (Alone(meta, Claimed(mid), mid[n]) ==> after[n] == mid[n])
    ensures KeptAlone(meta, before, after, n + 1)
  {
    NextTurn(meta, before, mid, after, n);
    hide Alone, AtTurn;
    forall i | 0 <= i < n + 1 ensures AloneAt(meta, before, after, i) ==> after[i] == before[i] {
      assert i < n ==> (AloneAt(meta, before, after, i) <==> AloneAt(meta, before, mid, i));
    }
  }

  lemma {:induction false} TurnOnlyAlone(meta: set<nat>, before: Files, mid: Files, after: Files, n: nat)
    requires n < |before| == |mid| == |after|
    requires forall j :: 0 <= j < |before| ==> (j >= n ==> mid[j] == before[j]) && (j != n ==> after[j] == mid[j])
    requires KeptOnlyAlone(meta, before, mid, n)
    requires after[n] == if Alone(meta, Claimed(mid), mid[n]) then mid[n] else []
    ensures KeptOnlyAlone(meta, before, after, n + 1)
  {
    NextTurn(meta, before, mid, after, n);
    hide Alone, AtTurn;
    forall i | 0 <= i < n + 1 ensures after[i] == (if AloneAt(meta, before, after, i) then before[i] else []) {
      assert i < n ==> (AloneAt(meta, before, after, i) <==> AloneAt(meta, before, mid, i));
    }
  }

  // ---- Deleting only ----

  /** No block of file `i` is metadata, or twice in it, or in a later file. */
  ghost predicate LastClaimant(meta: set<nat>, files: Files, i: nat)
    requires i < |files|
  {
    forall k :: 0 <= k < |files[i]| && files[i][k] != 0 ==>
      && files[i][k] !in meta && multiset(files[i])[files[i][k]] == 1
      && forall j :: i < j < |files| ==> files[i][k] !in files[j]
  }

  /** A block of a file has one claim if it is in that file once and in no other. */
  lemma {:induction false} ClaimedOnce(files: Files, i: nat, b: nat)
    requires i < |files| && b in files[i]
    ensures Claimed(files)[b] <= 1 <==>
            multiset(files[i])[b] == 1 && forall j :: 0 <= j < |files| && j != i ==> b !in files[j]
  {
    ClaimedUpdate(files, i, []);
    var rest := files[i := []];
    assert b in multiset(files[i]);
    assert Claimed(rest)[b] == Claimed(files)[b] - multiset(files[i])[b];
    if b in Claimed(rest) {
      ClaimedBy(rest, b);
      var j, k :| 0 <= j < |rest| && 0 <= k < |rest[j]| && rest[j][k] == b;
      assert b in files[j] && j != i;
    } else {
      forall j | 0 <= j < |files| && j != i ensures b !in files[j] {
        if b in files[j] {
          var k :| 0 <= k < |rest[j]| && rest[j][k] == b;
          ClaimedMember(rest, j, k);
        }
      }
    }
  }

  lemma {:induction false} AloneIsLast(meta: set<nat>, before: Files, after: Files, i: nat)
    requires KeptOnlyAlone(meta, before, after, |before|) && i < |before| && AloneAt(meta, before, after, i)
    ensures LastClaimant(meta, before, i)
  {
    var turn, f := AtTurn(before, after, i), before[i];
    forall k | 0 <= k < |f| && f[k] != 0
      ensures f[k] !in meta && multiset(f)[f[k]] == 1
      ensures forall j :: i < j < |before| ==> f[k] !in before[j]
    {
      assert turn[i] == f;
      ClaimedOnce(turn, i, f[k]);
      forall j | i < j < |before| ensures f[k] !in before[j] {
        assert turn[j] == before[j];
      }
    }
  }

  lemma {:induction false} LastIsAlone(meta: set<nat>, before: Files, after: Files, i: nat)
    requires KeptOnlyAlone(meta, before, after, |before|) && i < |before| && LastClaimant(meta, before, i)
    ensures AloneAt(meta, before, after, i)
  {
    var turn, f := AtTurn(before, after, i), before[i];
    assert turn[i] == f;
    forall k | 0 <= k < |f| && f[k] != 0 ensures Claimed(turn)[f[k]] <= 1 {
      forall j | 0 <= j < |turn| && j != i ensures f[k] !in turn[j] {
        if j < i {
          assert turn[j] == after[j];
          EarlierKept(meta, before, after, j, i, f[k]);
        } else {
          assert turn[j] == before[j];
        }
      }
      ClaimedOnce(turn, i, f[k]);
    }
  }

  /** A file that was kept shares no block with a later one. */
  lemma {:induction false} EarlierKept(meta: set<nat>, before: Files, after: Files, j: nat, i: nat, b: nat)
    requires KeptOnlyAlone(meta, before, after, |before|) && j < i < |before| && b != 0
    ensures b in after[j] ==> b !in before[i]
  {
    if b in after[j] {
      AloneIsLast(meta, before, after, j);
      var k :| 0 <= k < |before[j]| && before[j][k] == b;
      assert before[j][k] !in before[i];
    }
  }

  /** With deletions only, the files that stay are those of which no block is metadata, or twice in
      them, or in a later file. */
  lemma {:induction false} OnlyLastStay(meta: set<nat>, before: Files, after: Files, i: nat)
    requires KeptOnlyAlone(meta, before, after, |before|) && i < |before|
    ensures after[i] == if LastClaimant(meta, before, i) then before[i] else []
    ensures after[i] == before[i] <==> LastClaimant(meta, before, i)
  {
    if LastClaimant(meta, before, i) {
      LastIsAlone(meta, before, after, i);
    } else if AloneAt(meta, before, after, i) {
      AloneIsLast(meta, before, after, i);
    }
  }
}
