/** Finding the head of the journal, and that it finds what was written
    (debugfs/do_journal.c, journal_find_head). */
module JournalScan {
  import opened JournalFormat
  import opened JournalWriter

  /** The ring of journal blocks: from `first` up to, not including, `last`. */
  datatype Ring = Ring(c: Config, first: nat, last: nat)

  predicate RingOk(r: Ring) {
    r.first < r.last
  }

  /** The macro wrap */
  function Wrap(r: Ring, b: nat): nat
    requires RingOk(r)
  {
    if b >= r.last then b - (r.last - r.first) else b
  }

  /** The block to look at, the sequence number expected there, and the end of the last commit. */
  datatype Scan = Scan(next: nat, id: nat, head: nat)

  datatype Outcome = Going(at: Scan) | Ended(at: Scan) | Failed

  function ScanStep(r: Ring, log: Log, s: Scan): Outcome
    requires RingOk(r)
  {
    var next := Wrap(r, s.next + 1);
    if s.next !in log then Ended(s)
    else match log[s.next]
      case Data(_) => Ended(s)
      case Descriptor(tid, area) =>
        if tid != s.id then Ended(s)
        else Going(s.(next := Wrap(r, next + |ParseTags(r.c, area, JOURNAL_HEADER)|)))
      case Commit(tid) => if tid != s.id then Ended(s) else Going(Scan(next, NextId(s.id), next))
      case Revoke(tid, _, _) => if tid != s.id then Ended(s) else Going(s.(next := next))
      case Other(tid) => if tid != s.id then Ended(s) else Failed
  }

  function ScanRun(r: Ring, log: Log, s: Scan, steps: nat): Outcome
    requires RingOk(r)
    decreases steps
  {
    if steps == 0 then Going(s)
    else
      var o := ScanStep(r, log, s);
      if o.Going? then ScanRun(r, log, o.at, steps - 1) else o
  }

  /** The scan goes on for ever. */
  ghost predicate NeverEnds(r: Ring, log: Log, s: Scan)
    requires RingOk(r)
  {
    forall n: nat :: ScanRun(r, log, s, n).Going?
  }

  /** journal_find_head.  The loop of the program need not end; here it is left after one round
      more than there are blocks in the log, by which time it has ended if it ever does.  Committed
      transactions from the tail on, with the places of the ring counted on behind its end, lead
      to the place behind the last of them. */
  method FindHead(j: Journal) returns (o: Outcome)
    requires j.first < j.last
    modifies j`head, j`transSequence
    ensures j.tail == 0 ==> o == Ended(Scan(0, j.tailSequence, 0))
    ensures j.tail != 0 ==>
              var r, s := Ring(j.c, j.first, j.last), Scan(j.tail, j.tailSequence, j.tail);
              && (o.Going? <==> NeverEnds(r, j.log, s))
              && forall n: nat :: !ScanRun(r, j.log, s, n).Going? ==> o == ScanRun(r, j.log, s, n)
    ensures if o.Ended? && j.tail != 0 then j.head == o.at.head && j.transSequence == o.at.id
            else j.head == old(j.head) && j.transSequence == old(j.transSequence)
    ensures 0 < j.tail < j.last ==>
              var r := Ring(j.c, j.first, j.last);
              forall commits: seq<nat> ::
                (&& Chained(r, j.log, j.tailSequence, j.tail, commits)
                 && Foreign(j.log, Place(r, End(j.tail, commits)), IdAfter(j.tailSequence, commits))) ==>
                  && o.Ended? && j.head == Place(r, End(j.tail, commits))
                  && j.transSequence == IdAfter(j.tailSequence, commits)
  {
    if j.tail == 0 {
      return Ended(Scan(0, j.tailSequence, 0));
    }
    var r, s := Ring(j.c, j.first, j.last), Scan(j.tail, j.tailSequence, j.tail);
    EndsSoonOrNever(r, j.log, s);
    o := ScanLoop(r, j.log, s);
    forall commits: seq<nat> | j.tail < j.last && Chained(r, j.log, j.tailSequence, j.tail, commits)
      && Foreign(j.log, Place(r, End(j.tail, commits)), IdAfter(j.tailSequence, commits))
      ensures o == Ended(Behind(r, j.tail, j.tailSequence, j.tail, commits))
    {
      var n := ChainEnds(r, j.log, j.tailSequence, j.tail, j.tail, commits);
    }
    if o.Ended? {
      j.transSequence, j.head := o.at.id, o.at.head;
    }
  }

  /** The loop of journal_find_head. */
  method ScanLoop(r: Ring, log: Log, s: Scan) returns (o: Outcome)
    requires RingOk(r)
    ensures o == ScanRun(r, log, s, |log| + 1)
  {
    var next, id, head := s.next, s.id, s.head;
    for i := 0 to |log| + 1
      invariant ScanRun(r, log, s, |log| + 1) == ScanRun(r, log, Scan(next, id, head), |log| + 1 - i)
    {
      var at := next;
      next := Wrap(r, next + 1);
      if at !in log || log[at].Data? || log[at].tid != id {
        return Ended(Scan(at, id, head));
      }
      match log[at]
      case Descriptor(_, area) =>
        var nr := CountTags(r.c, area);
        next := Wrap(r, next + nr);
      case Commit(_) =>
        head, id := next, NextId(id);
      case Revoke(_, _, _) =>
      case Other(_) =>
        return Failed;
    }
    return Going(Scan(next, id, head));
  }

  // ---- When the scan ends ----

  lemma {:induction false} RunAdd(r: Ring, log: Log, s: Scan, m: nat, n: nat)
    requires RingOk(r)
    ensures ScanRun(r, log, s, m + n) ==
            var o := ScanRun(r, log, s, m);
            if o.Going? then ScanRun(r, log, o.at, n) else o
    decreases m
  {
    if m > 0 {
      var o := ScanStep(r, log, s);
      if o.Going? {
        RunAdd(r, log, o.at, m - 1, n);
      }
    }
  }

  /** Whether the scan goes on does not depend on the head found so far. */
  lemma {:induction false} HeadIsNotRead(r: Ring, log: Log, s: Scan, t: Scan, n: nat)
    requires RingOk(r) && t.next == s.next && t.id == s.id
    ensures ScanRun(r, log, s, n).Going? <==> ScanRun(r, log, t, n).Going?
    decreases n
  {
    if n > 0 && ScanStep(r, log, s).Going? {
      HeadIsNotRead(r, log, ScanStep(r, log, s).at, ScanStep(r, log, t).at, n - 1);
    }
  }

  /** A scan that comes back to a block with the same number never ends. */
  lemma {:induction false} ComesBack(r: Ring, log: Log, s: Scan, p: nat, n: nat)
    requires RingOk(r) && p > 0 && ScanRun(r, log, s, p).Going?
    requires var t := ScanRun(r, log, s, p).at; t.next == s.next && t.id == s.id
    ensures ScanRun(r, log, s, n).Going?
    decreases n
  {
    if n <= p {
      RunAdd(r, log, s, n, p - n);
    } else {
      RunAdd(r, log, s, p, n - p);
      ComesBack(r, log, s, p, n - p);
      HeadIsNotRead(r, log, s, ScanRun(r, log, s, p).at, n - p);
    }
  }

  /** The blocks that the first `n` rounds look at. */
  ghost function Visited(r: Ring, log: Log, s: Scan, n: nat): (v: seq<nat>)
    requires RingOk(r) && ScanRun(r, log, s, n).Going?
    ensures |v| == n
    decreases n
  {
    if n == 0 then [] else [s.next] + Visited(r, log, ScanStep(r, log, s).at, n - 1)
  }

  /** Each of them is in the log and has the number expected there. */
  lemma {:induction false} VisitedAt(r: Ring, log: Log, s: Scan, n: nat, i: nat)
    requires RingOk(r) && ScanRun(r, log, s, n).Going? && i < n
    ensures var o := ScanRun(r, log, s, i);
            && o.Going? && Visited(r, log, s, n)[i] == o.at.next
            && o.at.next in log && !log[o.at.next].Data? && log[o.at.next].tid == o.at.id
    decreases n
  {
    if i > 0 {
      VisitedAt(r, log, ScanStep(r, log, s).at, n - 1, i - 1);
    }
  }

  /** Of more numbers than there are in a set, two are the same. */
  lemma {:induction false} Pigeonhole(v: seq<nat>, keys: set<nat>) returns (i: nat, j: nat)
    requires |v| > |keys| && forall k :: 0 <= k < |v| ==> v[k] in keys
    ensures i < j < |v| && v[i] == v[j]
    decreases |v|
  {
    var n := |v| - 1;
    if k :| 0 <= k < n && v[k] == v[n] {
      i, j := k, n;
    } else {
      i, j := Pigeonhole(v[..n], keys - {v[n]});
    }
  }

  /** A scan ends within as many rounds as the log has blocks, and one more, or never. */
  lemma {:induction false} EndsSoonOrNever(r: Ring, log: Log, s: Scan)
    requires RingOk(r)
    ensures ScanRun(r, log, s, |log| + 1).Going? <==> NeverEnds(r, log, s)
    ensures forall n: nat :: !ScanRun(r, log, s, n).Going? ==>
              ScanRun(r, log, s, |log| + 1) == ScanRun(r, log, s, n)
  {
    var m := |log| + 1;
    if ScanRun(r, log, s, m).Going? {
      var v := Visited(r, log, s, m);
      forall k | 0 <= k < m ensures v[k] in log.Keys {
        VisitedAt(r, log, s, m, k);
      }
      var i, j := Pigeonhole(v, log.Keys);
      VisitedAt(r, log, s, m, i);
      VisitedAt(r, log, s, m, j);
      RunAdd(r, log, s, i, j - i);
      forall n: nat ensures ScanRun(r, log, s, n).Going? {
        ComesBack(r, log, ScanRun(r, log, s, i).at, j - i, n);
        RunAdd(r, log, s, i, n);
        RunAdd(r, log, s, n, i);
      }
    } else {
      forall n: nat | !ScanRun(r, log, s, n).Going?
        ensures ScanRun(r, log, s, m) == ScanRun(r, log, s, n)
      {
        if n <= m {
          RunAdd(r, log, s, n, m - n);
        } else {
          RunAdd(r, log, s, m, n - m);
        }
      }
    }
  }

  // ---- Committed transactions in the ring ----

  /** The `p`-th place: the blocks below the end of the ring are their own places, and from there
      on the places go round the ring. */
  function Place(r: Ring, p: nat): nat
    requires RingOk(r)
  {
    if p < r.last then p else r.first + (p - r.first) % (r.last - r.first)
  }

  lemma {:induction false} ModIs(x: nat, q: nat, y: nat, n: nat)
    requires y < n && x == q * n + y
    ensures x % n == y
  {
    var k, z := x / n, x % n;
    assert x == k * n + z;
    MulOrder(q, k, n);
    MulOrder(k, q, n);
  }

  lemma {:induction false} MulOrder(q: nat, k: nat, n: nat)
    ensures q > k ==> q * n >= k * n + n
  {
    if q > k {
      assert q * n == (q - 1) * n + n;
      MulOrder(q - 1, k, n);
    }
  }

  lemma {:induction false} ModAdd(x: nat, m: nat, n: nat)
    requires 0 < n && m <= n
    ensures (x + m) % n == if x % n + m < n then x % n + m else x % n + m - n
  {
    var q, y := x / n, x % n;
    assert x == q * n + y;
    if y + m < n {
      ModIs(x + m, q, y + m, n);
    } else {
      assert (q + 1) * n == q * n + n;
      ModIs(x + m, q + 1, y + m - n, n);
    }
  }

  /** The macro goes on `m` places, from any place, as long as `m` is not more than the ring. */
  lemma {:induction false} WrapPlace(r: Ring, p: nat, m: nat)
    requires RingOk(r) && m <= r.last - r.first
    ensures Place(r, p) < r.last && Wrap(r, Place(r, p) + m) == Place(r, p + m)
  {
    var n := r.last - r.first;
    if p >= r.last {
      ModAdd(p - r.first, m, n);
      assert (p - r.first) + m == p + m - r.first;
    } else if p + m >= r.last {
      ModIs(p + m - r.first, 1, p + m - r.first - n, n);
    }
  }

  /** Two places that are one stay so when both go on. */
  lemma {:induction false} PlaceShift(r: Ring, p: nat, q: nat, m: nat)
    requires RingOk(r) && Place(r, p) == Place(r, q) && m <= r.last - r.first
    ensures Place(r, p + m) == Place(r, q + m)
  {
    WrapPlace(r, p, m);
    WrapPlace(r, q, m);
  }

  /** The places from `p` up to `e` hold descriptors, each with as many blocks behind it as it has
      tags, and revoke blocks of transaction `tid`; the end of the ring may fall anywhere. */
  ghost predicate Over(r: Ring, log: Log, tid: nat, p: nat, e: nat)
    requires RingOk(r)
    decreases e - p
  {
    p == e ||
    (p < e && Place(r, p) in log && match log[Place(r, p)]
     case Descriptor(t, area) =>
       var n := |ParseTags(r.c, area, JOURNAL_HEADER)|;
       t == tid && p + 1 + n <= e && n <= r.last - r.first && Over(r, log, tid, p + 1 + n, e)
     case Revoke(t, _, _) => t == tid && Over(r, log, tid, p + 1, e)
     case _ => false)
  }

  /** Where the scan goes from a place that holds a descriptor or a revoke block. */
  ghost function NextPlace(r: Ring, log: Log, p: nat): nat
    requires RingOk(r) && Place(r, p) in log
  {
    var b := log[Place(r, p)];
    if b.Descriptor? then p + 1 + |ParseTags(r.c, b.area, JOURNAL_HEADER)| else p + 1
  }

  lemma {:induction false} OverStep(r: Ring, log: Log, tid: nat, p: nat, e: nat, head: nat)
    requires RingOk(r) && Over(r, log, tid, p, e) && p < e
    ensures Place(r, p) in log && p < NextPlace(r, log, p) <= e && Over(r, log, tid, NextPlace(r, log, p), e)
    ensures ScanStep(r, log, Scan(Place(r, p), tid, head)) ==
            Going(Scan(Place(r, NextPlace(r, log, p)), tid, head))
  {
    WrapPlace(r, p, 1);
    if log[Place(r, p)].Descriptor? {
      WrapPlace(r, p + 1, |ParseTags(r.c, log[Place(r, p)].area, JOURNAL_HEADER)|);
    }
  }

  /** The number of blocks a scan looks at between two places. */
  ghost function Hops(r: Ring, log: Log, tid: nat, p: nat, e: nat): nat
    requires RingOk(r) && Over(r, log, tid, p, e)
    decreases e - p
  {
    if p == e then 0
    else
      OverStep(r, log, tid, p, e, 0);
      1 + Hops(r, log, tid, NextPlace(r, log, p), e)
  }

  lemma {:induction false} RunOver(r: Ring, log: Log, tid: nat, p: nat, e: nat, head: nat, steps: nat)
    requires RingOk(r) && Over(r, log, tid, p, e)
    requires steps >= Hops(r, log, tid, p, e)
    ensures ScanRun(r, log, Scan(Place(r, p), tid, head), steps)
         == ScanRun(r, log, Scan(Place(r, e), tid, head), steps - Hops(r, log, tid, p, e))
    decreases e - p
  {
    hide Place, ScanStep;
    if p != e {
      OverBounds(r, log, tid, p, e);
      OverStep(r, log, tid, p, e, head);
      RunOver(r, log, tid, NextPlace(r, log, p), e, head, steps - 1);
    }
  }

  lemma {:induction false} OverBounds(r: Ring, log: Log, tid: nat, p: nat, e: nat)
    requires RingOk(r) && Over(r, log, tid, p, e)
    ensures p <= e
  {
  }

  /** A committed transaction is scanned over exactly, wherever the end of the ring falls: whatever
      was found before, the head is then the place behind its commit block and the next number
      one higher. */
  lemma {:induction false} TransactionFound(r: Ring, log: Log, tid: nat, p: nat, e: nat, head: nat, steps: nat)
    requires RingOk(r) && Over(r, log, tid, p, e)
    requires Place(r, e) in log && log[Place(r, e)] == Commit(tid)
    requires steps > Hops(r, log, tid, p, e)
    ensures var behind := Place(r, e + 1);
            ScanRun(r, log, Scan(Place(r, p), tid, head), steps)
            == ScanRun(r, log, Scan(behind, NextId(tid), behind), steps - Hops(r, log, tid, p, e) - 1)
  {
    hide Place, Over, Hops;
    RunOver(r, log, tid, p, e, head, steps);
    WrapPlace(r, e, 1);
  }

  /** The scan goes no further when the block there does not carry the number expected. */
  predicate Foreign(log: Log, b: nat, id: nat) {
    b !in log || log[b].Data? || log[b].tid != id
  }

  /** Committed transactions follow each other in the ring, with consecutive numbers; `commits`
      are the places of their commit blocks. */
  ghost predicate Chained(r: Ring, log: Log, tid: nat, p: nat, commits: seq<nat>)
    requires RingOk(r)
    decreases |commits|
  {
    commits == [] ||
    (var e := commits[0];
     && Over(r, log, tid, p, e) && Place(r, e) in log && log[Place(r, e)] == Commit(tid)
     && Chained(r, log, NextId(tid), e + 1, commits[1..]))
  }

  /** The place behind them. */
  function End(p: nat, commits: seq<nat>): nat {
    if commits == [] then p else commits[|commits| - 1] + 1
  }

  /** The number of the next one. */
  function IdAfter(tid: nat, commits: seq<nat>): nat
    decreases |commits|
  {
    if commits == [] then tid else IdAfter(NextId(tid), commits[1..])
  }

  /** The numbers go up by one, modulo 2^32. */
  lemma {:induction false} IdAfterIs(tid: nat, commits: seq<nat>)
    requires tid < 0x1_0000_0000
    ensures IdAfter(tid, commits) == (tid + |commits|) % 0x1_0000_0000
    decreases |commits|
  {
    if commits != [] {
      IdAfterIs(NextId(tid), commits[1..]);
    }
  }

  /** Where a scan is behind them. */
  function Behind(r: Ring, p: nat, tid: nat, head: nat, commits: seq<nat>): Scan
    requires RingOk(r)
  {
    Scan(Place(r, End(p, commits)), IdAfter(tid, commits),
         if commits == [] then head else Place(r, End(p, commits)))
  }

  lemma {:induction false} EndTail(p: nat, commits: seq<nat>)
    requires commits != []
    ensures End(commits[0] + 1, commits[1..]) == End(p, commits)
  {
  }

  /** Any number of committed transactions is scanned over exactly. */
  lemma {:induction false} ChainFound(r: Ring, log: Log, tid: nat, p: nat, head: nat, commits: seq<nat>)
    returns (n: nat)
    requires RingOk(r) && Chained(r, log, tid, p, commits)
    ensures ScanRun(r, log, Scan(Place(r, p), tid, head), n) == Going(Behind(r, p, tid, head, commits))
    decreases |commits|
  {
    hide Place, Over, ScanStep;
    if commits == [] {
      n := 0;
    } else {
      var e := commits[0];
      var rest := ChainFound(r, log, NextId(tid), e + 1, Place(r, e + 1), commits[1..]);
      n := Hops(r, log, tid, p, e) + 1 + rest;
      TransactionFound(r, log, tid, p, e, head, n);
      EndTail(p, commits);
    }
  }

  /** A chain of transactions behind which there is something else: the scan ends there. */
  lemma {:induction false} ChainEnds(r: Ring, log: Log, tid: nat, p: nat, head: nat, commits: seq<nat>)
    returns (n: nat)
    requires RingOk(r) && Chained(r, log, tid, p, commits)
    requires Foreign(log, Place(r, End(p, commits)), IdAfter(tid, commits))
    ensures ScanRun(r, log, Scan(Place(r, p), tid, head), n) == Ended(Behind(r, p, tid, head, commits))
  {
    hide Place, Chained;
    n := ChainFound(r, log, tid, p, head, commits);
    var t := Behind(r, p, tid, head, commits);
    RunAdd(r, log, Scan(Place(r, p), tid, head), n, 1);
    assert ScanStep(r, log, t) == Ended(t);
    assert ScanRun(r, log, t, 1) == Ended(t);
    n := n + 1;
  }

  lemma {:induction false} ChainedMore(r: Ring, log: Log, tid: nat, p: nat, commits: seq<nat>, e: nat)
    requires RingOk(r) && Chained(r, log, tid, p, commits)
    requires Over(r, log, IdAfter(tid, commits), End(p, commits), e)
    requires Place(r, e) in log && log[Place(r, e)] == Commit(IdAfter(tid, commits))
    ensures Chained(r, log, tid, p, commits + [e])
    ensures End(p, commits + [e]) == e + 1 && IdAfter(tid, commits + [e]) == NextId(IdAfter(tid, commits))
    decreases |commits|
  {
    hide Place, Over;
    if commits == [] {
      assert [e][1..] == [];
    } else {
      EndTail(p, commits);
      ChainedMore(r, log, NextId(tid), commits[0] + 1, commits[1..], e);
      assert (commits + [e])[1..] == commits[1..] + [e];
    }
  }

  // ---- What was written is found ----

  /** The places from `p` up to `e` are none of the blocks from `lo` up to `hi`. */
  ghost predicate ClearOf(r: Ring, p: nat, e: nat, lo: nat, hi: nat)
    requires RingOk(r)
  {
    forall k: nat :: p <= k < e ==> !(lo <= Place(r, k) < hi)
  }

  lemma {:induction false} OverFrame(r: Ring, a: Log, b: Log, tid: nat, p: nat, e: nat, lo: nat, hi: nat)
    requires RingOk(r) && Over(r, a, tid, p, e)
    requires SameOutside(a, b, lo, hi) && ClearOf(r, p, e, lo, hi)
    ensures Over(r, b, tid, p, e)
    decreases e - p
  {
    hide Place;
    if p != e {
      OverStep(r, a, tid, p, e, 0);
      assert !(lo <= Place(r, p) < hi);
      OverFrame(r, a, b, tid, NextPlace(r, a, p), e, lo, hi);
    }
  }

  lemma {:induction false} ChainedOrder(r: Ring, log: Log, tid: nat, p: nat, commits: seq<nat>)
    requires RingOk(r) && Chained(r, log, tid, p, commits)
    ensures p <= End(p, commits)
    decreases |commits|
  {
    hide Place, Over;
    if commits != [] {
      OverBounds(r, log, tid, p, commits[0]);
      ChainedOrder(r, log, NextId(tid), commits[0] + 1, commits[1..]);
      EndTail(p, commits);
    }
  }

  lemma {:induction false} ChainedFrame(r: Ring, a: Log, b: Log, tid: nat, p: nat, commits: seq<nat>, lo: nat, hi: nat)
    requires RingOk(r) && Chained(r, a, tid, p, commits)
    requires SameOutside(a, b, lo, hi) && ClearOf(r, p, End(p, commits), lo, hi)
    ensures Chained(r, b, tid, p, commits)
    decreases |commits|
  {
    hide Place, Over;
    if commits != [] {
      var e := commits[0];
      EndTail(p, commits);
      OverBounds(r, a, tid, p, e);
      ChainedOrder(r, a, NextId(tid), e + 1, commits[1..]);
      OverFrame(r, a, b, tid, p, e, lo, hi);
      assert !(lo <= Place(r, e) < hi);
      ChainedFrame(r, a, b, NextId(tid), e + 1, commits[1..], lo, hi);
    }
  }

  /** A stretch of the log that does not go round, at the place `p`. */
  lemma {:induction false} OverFrom(r: Ring, log: Log, tid: nat, s: nat, e: nat, p: nat)
    requires RingOk(r) && ScansOver(r.c, log, tid, s, e) && r.first <= s && e < r.last && Place(r, p) == s
    ensures s <= e && Over(r, log, tid, p, p + (e - s)) && Place(r, p + (e - s)) == e
    ensures Place(r, p + (e - s) + 1) == Place(r, e + 1)
    decreases e - s
  {
    ScansOrder(r.c, log, tid, s, e);
    PlaceShift(r, p, s, e - s);
    PlaceShift(r, p, s, e - s + 1);
    if s < e {
      var next := Next(r.c, log, s);
      ScansOrder(r.c, log, tid, next, e);
      PlaceShift(r, p, s, next - s);
      OverFrom(r, log, tid, next, e, p + (next - s));
    }
  }

  /** The block behind a transaction at `start..e` is its own first one, or was there before and is
      not read as the next transaction. */
  predicate EndsThere(r: Ring, before: Log, start: nat, e: nat, tid: nat)
    requires RingOk(r)
  {
    var b := if e + 1 < r.last then e + 1 else r.first;
    b == start || (!(start <= b <= e) && Foreign(before, b, NextId(tid)))
  }

  /** A transaction written behind the ones whose commit blocks are at the places `commits` (none, if
      the journal was clean), without touching them, is found again, if the block behind it is
      not read as the next one: the head is the block behind its commit block, or the first block
      of the ring. */
  method WriteAndFind(j: Journal, list: seq<nat>, magic: seq<bool>, revokes: seq<nat>, blocks: nat,
                      ghost commits: seq<nat>) returns (err: Err, o: Outcome, ghost e: nat)
    requires Usable(j.c) && |magic| == |list| && 0 < j.first < j.last
    modifies j
    ensures err == Ok ==>
              Holds(j.c, j.log, old(j.NextTid()), old(j.NextStart()), e, list, magic, revokes)
    ensures var r, start, tid := Ring(j.c, j.first, j.last), old(j.NextStart()), old(j.NextTid());
            && err == Ok && j.first <= start && e < j.last
            && old(Follows(j, commits))
            && (old(j.tail) == 0 || ClearOf(r, old(j.tail), End(old(j.tail), commits), start, e + 1))
            && EndsThere(r, old(j.log), start, e, tid) ==>
              && o.Ended? && j.head == (if e + 1 < j.last then e + 1 else j.first)
              && j.transSequence == NextId(tid)
  {
    hide Over, Chained, ClearOf, Place, Holds;
    o := Failed;
    ghost var start, tid, was, log0 := j.NextStart(), j.NextTid(), j.tail, j.log;
    ghost var follows := Follows(j, commits);
    err, e := j.Write(list, magic, revokes, blocks, true);
    if err == Ok {
      ghost var r := Ring(j.c, j.first, j.last);
      o := FindHead(j);
      if j.first <= start && e < j.last && follows && EndsThere(r, log0, start, e, tid)
         && (was == 0 || ClearOf(r, was, End(was, commits), start, e + 1))
      {
        HoldsScans(j.c, j.log, tid, start, e, list, magic, revokes);
        PlaceLow(r, start);
        ChainedNone(r, log0, tid, start);
        WrittenBehind(r, log0, j.log, j.tailSequence, if was == 0 then start else was, commits, tid, start, e);
      }
    }
  }

  lemma {:induction false} HoldsScans(c: Config, log: Log, tid: nat, s: nat, e: nat, list: seq<nat>,
                                      magic: seq<bool>, revokes: seq<nat>)
    requires Holds(c, log, tid, s, e, list, magic, revokes)
    ensures ScansOver(c, log, tid, s, e) && s <= e
  {
  }

  lemma {:induction false} PlaceLow(r: Ring, p: nat)
    requires RingOk(r) && p < r.last
    ensures Place(r, p) == p
  {
  }

  lemma {:induction false} ChainedNone(r: Ring, log: Log, tid: nat, p: nat)
    requires RingOk(r)
    ensures Chained(r, log, tid, p, []) && forall lo, hi :: ClearOf(r, p, p, lo, hi)
  {
  }

  /** The transactions with these commit blocks lead from the tail to the place of the next one. */
  ghost predicate Follows(j: Journal, commits: seq<nat>)
    requires j.first < j.last
    reads j
  {
    if j.tail == 0 then commits == []
    else
      var r := Ring(j.c, j.first, j.last);
      && j.tail < j.last && Chained(r, j.log, j.tailSequence, j.tail, commits)
      && Place(r, End(j.tail, commits)) == j.NextStart() && IdAfter(j.tailSequence, commits) == j.NextTid()
  }

  /** The chain with the new transaction, and that it ends behind it. */
  lemma {:induction false} WrittenBehind(r: Ring, before: Log, log: Log, tid0: nat, p: nat, commits: seq<nat>, tid: nat,
                                         s: nat, e: nat)
    requires RingOk(r) && ScansOver(r.c, log, tid, s, e) && r.first <= s && e < r.last
    requires SameOutside(before, log, s, e + 1) && e in log && log[e] == Commit(tid)
    requires Chained(r, before, tid0, p, commits) && ClearOf(r, p, End(p, commits), s, e + 1)
    requires Place(r, End(p, commits)) == s && IdAfter(tid0, commits) == tid
    requires EndsThere(r, before, s, e, tid)
    ensures exists more :: Chained(r, log, tid0, p, more)
              && Place(r, End(p, more)) == (if e + 1 < r.last then e + 1 else r.first)
              && IdAfter(tid0, more) == NextId(tid)
              && Foreign(log, Place(r, End(p, more)), IdAfter(tid0, more))
  {
    var more := commits + [End(p, commits) + (e - s)];
    ChainedFrame(r, before, log, tid0, p, commits, s, e + 1);
    OverFrom(r, log, tid, s, e, End(p, commits));
    ChainedMore(r, log, tid0, p, commits, End(p, commits) + (e - s));
    PlaceBehind(r, e);
    ForeignBehind(r, before, log, tid, s, e);
    assert Chained(r, log, tid0, p, more);
  }

  lemma {:induction false} PlaceBehind(r: Ring, e: nat)
    requires RingOk(r) && e < r.last
    ensures Place(r, e + 1) == if e + 1 < r.last then e + 1 else r.first
  {
  }

  /** Then the scan ends behind the transaction. */
  lemma {:induction false} ForeignBehind(r: Ring, before: Log, log: Log, tid: nat, s: nat, e: nat)
    requires RingOk(r) && ScansOver(r.c, log, tid, s, e) && e < r.last
    requires SameOutside(before, log, s, e + 1) && e in log && log[e] == Commit(tid)
    requires EndsThere(r, before, s, e, tid)
    ensures Foreign(log, if e + 1 < r.last then e + 1 else r.first, NextId(tid))
  {
  }

  /** A ring full of revoke blocks with one number keeps the scan going round for ever. */
  lemma {:induction false} ScanCanCircle(r: Ring, log: Log, s: Scan, steps: nat)
    requires RingOk(r) && r.first <= s.next < r.last
    requires forall b :: r.first <= b < r.last ==> b in log && log[b].Revoke? && log[b].tid == s.id
    ensures ScanRun(r, log, s, steps).Going?
    decreases steps
  {
    if steps > 0 {
      ScanCanCircle(r, log, s.(next := Wrap(r, s.next + 1)), steps - 1);
    }
  }
}
