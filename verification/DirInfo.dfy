/** The table of directories (e2fsck/dirinfo.c): a sorted array, a remembered last result and
    an iterator that stays in use while entries are inserted. */
module DirInfo {
  import opened Basics

  datatype Info = Info(ino: nat, dotdot: nat, parent: nat)

  predicate Ascending(s: seq<Info>) {
    forall i, j :: 0 <= i < j < |s| ==> s[i].ino < s[j].ino
  }

  /** What the table says of a directory. */
  function Lookup(s: seq<Info>, ino: nat): Option<Info> {
    if s == [] then None else if s[0].ino == ino then Some(s[0]) else Lookup(s[1..], ino)
  }

  lemma {:induction false} LookupAt(s: seq<Info>, i: nat)
    requires Ascending(s) && i < |s|
    ensures Lookup(s, s[i].ino) == Some(s[i])
  {
    if i > 0 {
      LookupAt(s[1..], i - 1);
    }
  }

  lemma {:induction false} LookupMissing(s: seq<Info>, ino: nat)
    requires forall i :: 0 <= i < |s| ==> s[i].ino != ino
    ensures Lookup(s, ino) == None
  {
    if s != [] {
      LookupMissing(s[1..], ino);
    }
  }

  lemma {:induction false} LookupBehind(s: seq<Info>, i: nat, ino: nat)
    requires i <= |s| && forall k :: 0 <= k < i ==> s[k].ino < ino
    ensures Lookup(s, ino) == Lookup(s[i..], ino)
  {
    if i > 0 {
      LookupBehind(s[1..], i - 1, ino);
      assert s[1..][i - 1..] == s[i..];
    }
  }

  lemma {:induction false} LookupSplit(s: seq<Info>, t: seq<Info>, ino: nat)
    ensures Lookup(s + t, ino) == if Lookup(s, ino).Some? then Lookup(s, ino) else Lookup(t, ino)
  {
    if s == [] {
      assert s + t == t;
    } else {
      assert (s + t)[1..] == s[1..] + t;
      LookupSplit(s[1..], t, ino);
    }
  }

  /** The table after an entry was put in at `i`, in place of one for the same directory if
      there was one. */
  function Put(s: seq<Info>, i: nat, x: Info): seq<Info>
    requires i <= |s|
  {
    if i < |s| && s[i].ino == x.ino then s[i := x] else s[..i] + [x] + s[i..]
  }

  /** The position belongs to the directory: everything before it is smaller, and nothing from
      it on is. */
  predicate Belongs(s: seq<Info>, i: nat, ino: nat) {
    && i <= |s|
    && (forall k :: 0 <= k < i ==> s[k].ino < ino)
    && (forall k :: i <= k < |s| ==> s[k].ino >= ino)
  }

  lemma {:induction false} PutAscending(s: seq<Info>, i: nat, x: Info)
    requires Ascending(s) && Belongs(s, i, x.ino)
    ensures Ascending(Put(s, i, x))
  {
  }

  lemma {:induction false} PutLookup(s: seq<Info>, i: nat, x: Info, ino: nat)
    requires Ascending(s) && Belongs(s, i, x.ino)
    ensures Lookup(Put(s, i, x), ino) == if ino == x.ino then Some(x) else Lookup(s, ino)
  {
    var rest := if i < |s| && s[i].ino == x.ino then s[i + 1..] else s[i..];
    assert Put(s, i, x) == s[..i] + ([x] + rest);
    LookupSplit(s[..i], [x] + rest, ino);
    LookupSplit([x], rest, ino);
    LookupSplit(s[..i], s[i..], ino);
    assert s == s[..i] + s[i..] && Lookup([x], ino) == if ino == x.ino then Some(x) else None;
    if ino == x.ino {
      LookupMissing(s[..i], ino);
    } else if i < |s| && s[i].ino == x.ino {
      LookupSplit([s[i]], rest, ino);
      assert s[i..] == [s[i]] + rest && Lookup([s[i]], ino) == None;
    }
  }

  // ---- Iterating while the table grows ----

  /** What an iterator at index `i` has behind it: of the directories that were there at the
      start, every one below the index has been returned. */
  ghost predicate Covered(s: seq<Info>, i: nat, start: set<nat>, seen: set<nat>) {
    forall k :: 0 <= k < i && k < |s| ==> s[k].ino in seen || s[k].ino !in start
  }

  /** An insertion, wherever it happens, leaves nothing uncovered behind the iterator. */
  lemma {:induction false} PutCovered(s: seq<Info>, p: nat, x: Info, i: nat, start: set<nat>, seen: set<nat>)
    requires Covered(s, i, start, seen) && p <= |s|
    requires x.ino in start ==> exists k :: 0 <= k < |s| && s[k].ino == x.ino
    requires Belongs(s, p, x.ino) && Ascending(s)
    ensures Covered(Put(s, p, x), i, start, seen)
  {
    var t := Put(s, p, x);
    forall k | 0 <= k < i && k < |t| ensures t[k].ino in seen || t[k].ino !in start {
      if |t| > |s| {
        if k > p { assert t[k] == s[k - 1]; }
      }
    }
  }

  class Iterator {
    var i: nat
    ghost var start: set<nat>   // the directories in the table when the iteration began
    ghost var seen: set<nat>    // those returned so far

    constructor (ghost start: set<nat>)
      ensures i == 0 && this.start == start && seen == {}
    {
      i, this.start, seen := 0, start, {};
    }
  }

  class Table {
    var entries: seq<Info>
    var size: nat
    var lastLookup: Option<nat>   // the pointer last_lookup, as an index

    ghost predicate Valid()
      reads this
    {
      Ascending(entries) && (lastLookup.Some? ==> lastLookup.value < |entries|)
    }

    constructor (size: nat)
      ensures Valid() && entries == [] && this.size == size
    {
      entries, this.size, lastLookup := [], size, None;
    }

    /** e2fsck_add_dir_info; `moves` says whether growing moves the array. */
    method Add(ino: nat, parent: nat, moves: bool) returns (ghost pos: nat)
      requires Valid()
      modifies this
      ensures Valid() && Belongs(old(entries), pos, ino)
      ensures entries == Put(old(entries), pos, Info(ino, parent, parent))
      ensures forall d: nat :: Lookup(entries, d) ==
                if d == ino then Some(Info(ino, parent, parent)) else Lookup(old(entries), d)
    {
      if |entries| >= size {
        size := size + 10;
        if moves {
          lastLookup := None;
        }
      }
      var i := Place(ino);
      PutAscending(entries, i, Info(ino, parent, parent));
      forall d: nat ensures Lookup(Put(entries, i, Info(ino, parent, parent)), d) ==
                if d == ino then Some(Info(ino, parent, parent)) else Lookup(entries, d)
      {
        PutLookup(entries, i, Info(ino, parent, parent), d);
      }
      if i < |entries| && entries[i].ino == ino {
        entries := entries[i := Info(ino, parent, parent)];
      } else {
        entries := entries[..i] + [Info(ino, parent, parent)] + entries[i..];
      }
      pos := i;
    }

    /** The position of a new entry; normally it is the end. */
    method Place(ino: nat) returns (i: nat)
      requires Ascending(entries)
      ensures Belongs(entries, i, ino)
    {
      i := |entries|;
      if |entries| > 0 && entries[|entries| - 1].ino >= ino {
        i := i - 1;
        while i > 0
          invariant i < |entries| && forall k :: i <= k < |entries| ==> entries[k].ino >= ino
        {
          if entries[i - 1].ino < ino {
            break;
          }
          i := i - 1;
        }
      }
      BelongsAt(entries, i, ino);
    }

    /** e2fsck_get_dir_info: the index of the entry.  The remembered entry is only a short cut:
        the result is what the table says. */
    method Get(ino: nat) returns (r: Option<nat>)
      requires Valid()
      ensures r.Some? ==> r.value < |entries| && Lookup(entries, ino) == Some(entries[r.value])
      ensures r.None? ==> Lookup(entries, ino) == None
    {
      if |entries| == 0 {
        return None;
      }
      if lastLookup.Some? && entries[lastLookup.value].ino == ino {
        LookupAt(entries, lastLookup.value);
        return lastLookup;
      }
      r := Search(ino);
      if r.Some? {
        LookupAt(entries, r.value);
      } else {
        LookupMissing(entries, ino);
      }
    }

    /** The two ends first, then the search between them. */
    method Search(ino: nat) returns (r: Option<nat>)
      requires Ascending(entries) && entries != []
      ensures r.Some? ==> r.value < |entries| && entries[r.value].ino == ino
      ensures r.None? ==> forall k :: 0 <= k < |entries| ==> entries[k].ino != ino
    {
      var low, high := 0, |entries| - 1;
      if ino == entries[low].ino {
        return Some(low);
      }
      if ino == entries[high].ino {
        return Some(high);
      }
      while low < high
        invariant 0 <= low <= high < |entries|
        invariant forall k :: 0 <= k <= low ==> entries[k].ino != ino
        invariant forall k :: high <= k < |entries| ==> entries[k].ino != ino
        decreases high - low
      {
        var mid := (low + high) / 2;
        if mid == low || mid == high {
          break;
        }
        if ino == entries[mid].ino {
          return Some(mid);
        }
        if ino < entries[mid].ino {
          high := mid;
        } else {
          low := mid;
        }
      }
      return None;
    }

    /** e2fsck_dir_info_set_parent */
    method SetParent(ino: nat, parent: nat) returns (ok: bool)
      requires Valid()
      modifies this`entries
      ensures Valid() && ok == Lookup(old(entries), ino).Some?
      ensures forall d: nat :: Lookup(entries, d) ==
                if d == ino && ok then Some(Lookup(old(entries), d).value.(parent := parent))
                else Lookup(old(entries), d)
      ensures |entries| == old(|entries|)
      ensures forall k :: 0 <= k < |entries| ==> entries[k].ino == old(entries)[k].ino
    {
      var r := Get(ino);
      if r.None? {
        return false;
      }
      var x := entries[r.value].(parent := parent);
      EntryPlace(entries, r.value, ino);
      forall d: nat ensures Lookup(Put(entries, r.value, x), d) ==
                            if d == ino then Some(x) else Lookup(entries, d)
      {
        PutLookup(entries, r.value, x, d);
      }
      entries := entries[r.value := x];
      return true;
    }

    /** e2fsck_dir_info_iter_begin */
    method IterBegin() returns (it: Iterator)
      ensures fresh(it) && it.i == 0 && it.seen == {}
      ensures it.start == set k | 0 <= k < |entries| :: entries[k].ino
      ensures Covered(entries, it.i, it.start, it.seen)
    {
      it := new Iterator(set k | 0 <= k < |entries| :: entries[k].ino);
    }

    /** e2fsck_dir_info_iter: when it ends, every directory that was there at the start and
        still is has been returned, whatever was inserted in the meantime. */
    method IterNext(it: Iterator) returns (r: Option<nat>)
      requires Valid() && Covered(entries, it.i, it.start, it.seen)
      modifies it, this`lastLookup
      ensures Valid() && Covered(entries, it.i, it.start, it.seen)
      ensures it.start == old(it.start)
      ensures if old(it.i) < |entries|
              then r == Some(old(it.i)) && it.i == old(it.i) + 1
                   && it.seen == old(it.seen) + {entries[r.value].ino}
              else r == None && it.i == old(it.i) && it.seen == old(it.seen)
      ensures r.None? ==> forall k :: 0 <= k < |entries| && entries[k].ino in it.start ==>
                            entries[k].ino in it.seen
    {
      if it.i >= |entries| {
        return None;
      }
      r := Some(it.i);
      lastLookup := r;
      it.seen := it.seen + {entries[it.i].ino};
      it.i := it.i + 1;
    }
  }

  lemma {:induction false} EntryPlace(s: seq<Info>, i: nat, ino: nat)
    requires Ascending(s) && i < |s| && Lookup(s, ino) == Some(s[i])
    ensures s[i].ino == ino && Belongs(s, i, ino)
  {
    LookupFound(s, ino);
  }

  lemma {:induction false} LookupFound(s: seq<Info>, ino: nat)
    requires Lookup(s, ino).Some?
    ensures Lookup(s, ino).value.ino == ino
  {
    if s[0].ino != ino {
      LookupFound(s[1..], ino);
    }
  }

  lemma {:induction false} BelongsAt(s: seq<Info>, i: nat, ino: nat)
    requires Ascending(s) && i <= |s| && (i > 0 ==> s[i - 1].ino < ino)
    requires forall k :: i <= k < |s| ==> s[k].ino >= ino
    ensures Belongs(s, i, ino)
  {
    forall k | 0 <= k < i ensures s[k].ino < ino {
      if k < i - 1 { assert s[k].ino < s[i - 1].ino; }
    }
  }

  /** One step of a caller's loop: the next entry, or an insertion. */
  datatype Step = Next | Insert(ino: nat, parent: nat, moves: bool)

  /** An iteration with any insertions between its steps: if it ends, every directory that was
      in the table at the start has been returned. */
  method IterateWithInserts(t: Table, steps: seq<Step>) returns (ended: bool, it: Iterator)
    requires t.Valid()
    modifies t
    ensures t.Valid() && fresh(it)
    ensures it.start == set k | 0 <= k < |old(t.entries)| :: old(t.entries)[k].ino
    ensures ended ==> it.start <= it.seen
  {
    it := t.IterBegin();
    ended := false;
    for n := 0 to |steps|
      invariant t.Valid() && fresh(it)
      invariant it.start == set k | 0 <= k < |old(t.entries)| :: old(t.entries)[k].ino
      invariant Covered(t.entries, it.i, it.start, it.seen) && StillThere(t.entries, it.start)
      invariant ended ==> it.start <= it.seen
    {
      match steps[n]
      case Next =>
        var r := t.IterNext(it);
        ended := ended || r.None?;
      case Insert(ino, parent, moves) =>
        ghost var was := t.entries;
        ghost var pos := t.Add(ino, parent, moves);
        PutCovered(was, pos, Info(ino, parent, parent), it.i, it.start, it.seen);
        PutStillThere(was, pos, Info(ino, parent, parent), it.start);
    }
  }

  ghost predicate StillThere(s: seq<Info>, start: set<nat>) {
    forall d :: d in start ==> exists k :: 0 <= k < |s| && s[k].ino == d
  }

  lemma {:induction false} PutStillThere(s: seq<Info>, p: nat, x: Info, start: set<nat>)
    requires StillThere(s, start) && p <= |s|
    ensures StillThere(Put(s, p, x), start)
  {
    var t := Put(s, p, x);
    forall d | d in start ensures exists k :: 0 <= k < |t| && t[k].ino == d {
      var k :| 0 <= k < |s| && s[k].ino == d;
      if |t| == |s| || k < p {
        assert t[k].ino == d;
      } else {
        assert t[k + 1].ino == d;
      }
    }
  }
}
