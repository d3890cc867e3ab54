/** The table of extended-attribute reference counts (e2fsck/ea_refcount.c): a sorted array with
    a cursor, in which zero counts stay until room is needed. */
module EaRefcount {

  /** ea_value_t is an unsigned 64-bit integer. */
  const VALUE_LIMIT: nat := 0x1_0000_0000_0000_0000

  type Value = v: nat | v < VALUE_LIMIT

  datatype Entry = Entry(key: nat, value: Value)

  datatype Err = Ok | InvalidArgument

  // ---- What a list of entries means ----

  predicate Ascending(s: seq<Entry>) {
    forall i, j :: 0 <= i < j < |s| ==> s[i].key < s[j].key
  }

  /** The count of a key; a key without an entry counts 0. */
  function Count(s: seq<Entry>, key: nat): Value {
    if s == [] then 0 else if s[0].key == key then s[0].value else Count(s[1..], key)
  }

  /** Both lists give every key the same count. */
  ghost predicate SameCounts(s: seq<Entry>, t: seq<Entry>) {
    forall key: nat :: Count(s, key) == Count(t, key)
  }

  lemma {:induction false} CountAt(s: seq<Entry>, i: nat)
    requires Ascending(s) && i < |s|
    ensures Count(s, s[i].key) == s[i].value
  {
    if i > 0 {
      CountAt(s[1..], i - 1);
    }
  }

  lemma {:induction false} CountMissing(s: seq<Entry>, key: nat)
    requires forall i :: 0 <= i < |s| ==> s[i].key != key
    ensures Count(s, key) == 0
  {
    if s != [] {
      CountMissing(s[1..], key);
    }
  }

  lemma {:induction false} CountConcat(s: seq<Entry>, t: seq<Entry>, key: nat)
    ensures Count(s + t, key) ==
            if exists i :: 0 <= i < |s| && s[i].key == key then Count(s, key) else Count(t, key)
  {
    if s == [] {
      assert s + t == t;
    } else {
      assert (s + t)[1..] == s[1..] + t;
      CountConcat(s[1..], t, key);
      if s[0].key != key && exists i :: 0 <= i < |s| && s[i].key == key {
        var i :| 0 <= i < |s| && s[i].key == key;
        assert s[1..][i - 1].key == key;
      }
    }
  }

  /** An entry with count 0 for a key that has none changes no count. */
  lemma {:induction false} InsertKeepsCounts(s: seq<Entry>, p: nat, key: nat)
    requires p <= |s| && forall i :: 0 <= i < |s| ==> s[i].key != key
    ensures SameCounts(s[..p] + [Entry(key, 0)] + s[p..], s)
  {
    var added := [Entry(key, 0)];
    forall k: nat ensures Count(s[..p] + added + s[p..], k) == Count(s, k) {
      assert s[..p] + s[p..] == s && s[..p] + added + s[p..] == s[..p] + (added + s[p..]);
      CountConcat(s[..p], s[p..], k);
      CountConcat(s[..p], added + s[p..], k);
      CountConcat(added, s[p..], k);
      CountMissing(s, key);
      assert added[0].key == key;
    }
  }

  lemma {:induction false} UpdateCounts(s: seq<Entry>, i: nat, v: Value, key: nat)
    requires Ascending(s) && i < |s|
    ensures Count(s[i := Entry(s[i].key, v)], key) == if key == s[i].key then v else Count(s, key)
  {
    if i > 0 {
      assert s[i := Entry(s[i].key, v)][1..] == s[1..][i - 1 := Entry(s[i].key, v)];
      UpdateCounts(s[1..], i - 1, v, key);
    }
  }

  // ---- refcount_collapse ----

  /** The entries with a count, in order. */
  function Collapsed(s: seq<Entry>): (r: seq<Entry>)
    ensures |r| <= |s|
  {
    if s == [] then []
    else if s[0].value != 0 then [s[0]] + Collapsed(s[1..])
    else Collapsed(s[1..])
  }

  lemma {:induction false} CollapsedFrom(s: seq<Entry>, i: nat) returns (j: nat)
    requires i < |Collapsed(s)|
    ensures j < |s| && Collapsed(s)[i] == s[j] && i <= j && s[j].value != 0
  {
    if s[0].value != 0 && i == 0 {
      j := 0;
    } else {
      j := CollapsedFrom(s[1..], if s[0].value != 0 then i - 1 else i);
      j := j + 1;
    }
  }

  lemma {:induction false} CollapsedAscending(s: seq<Entry>)
    requires Ascending(s)
    ensures Ascending(Collapsed(s))
    ensures |Collapsed(s)| == |s| ==> Collapsed(s) == s
  {
    if s != [] {
      var rest := Collapsed(s[1..]);
      CollapsedAscending(s[1..]);
      forall i | 0 <= i < |rest| ensures s[0].key < rest[i].key {
        var j := CollapsedFrom(s[1..], i);
      }
    }
  }

  lemma {:induction false} CollapsedCount(s: seq<Entry>, key: nat)
    requires Ascending(s)
    ensures Count(Collapsed(s), key) == Count(s, key)
  {
    if s != [] {
      CollapsedCount(s[1..], key);
      if key == s[0].key {
        CountMissing(s[1..], key);
      }
    }
  }

  /** Collapsing keeps the order and every count, and leaves no zero. */
  lemma {:induction false} CollapseKeeps(s: seq<Entry>)
    requires Ascending(s)
    ensures Ascending(Collapsed(s)) && SameCounts(Collapsed(s), s)
    ensures forall i :: 0 <= i < |Collapsed(s)| ==> Collapsed(s)[i].value != 0
    ensures |Collapsed(s)| == |s| ==> Collapsed(s) == s
  {
    CollapsedAscending(s);
    forall key: nat ensures Count(Collapsed(s), key) == Count(s, key) {
      CollapsedCount(s, key);
    }
    forall i | 0 <= i < |Collapsed(s)| ensures Collapsed(s)[i].value != 0 {
      var j := CollapsedFrom(s, i);
    }
  }

  /** One round of refcount_collapse. */
  lemma {:induction false} CollapseStep(s: seq<Entry>, i: nat, done: seq<Entry>)
    requires i < |s|
    ensures done + Collapsed(s[i..]) ==
            (if s[i].value != 0 then done + [s[i]] else done) + Collapsed(s[i + 1..])
  {
    assert s[i..][1..] == s[i + 1..];
  }

  /** The non-zero entries are exactly the keys with a count. */
  lemma {:induction false} CollapsedExact(s: seq<Entry>, key: nat)
    requires Ascending(s)
    ensures Count(s, key) != 0 <==> Entry(key, Count(s, key)) in Collapsed(s)
  {
    if s != [] {
      CollapsedExact(s[1..], key);
      if key == s[0].key {
        NotCollapsed(s[1..], Entry(key, s[0].value));
      }
    }
  }

  lemma {:induction false} NotCollapsed(s: seq<Entry>, e: Entry)
    requires e !in s
    ensures e !in Collapsed(s)
  {
    forall i | 0 <= i < |Collapsed(s)| ensures Collapsed(s)[i] != e {
      var j := CollapsedFrom(s, i);
    }
  }

  // ---- The table ----

  class Table {
    var list: seq<Entry>     // the entries in use; its length is the field `count`
    var size: nat            // the number of entries there is room for
    var cursor: nat

    ghost predicate Valid()
      reads this
    {
      |list| <= size && size > 0 && Ascending(list)
    }

    /** ea_refcount_create */
    constructor (size: nat)
      ensures Valid() && list == []
      ensures this.size == if size == 0 then 500 else size
    {
      this.size := if size == 0 then 500 else size;
      list, cursor := [], 0;
    }

    /** refcount_collapse */
    method Collapse()
      modifies this`list
      ensures list == Collapsed(old(list))
    {
      ghost var was := list;
      ghost var done: seq<Entry> := [];
      var i, j := 0, 0;
      while i < |list|
        invariant |done| == j <= i <= |list| == |was|
        invariant Collapsed(was) == done + Collapsed(was[i..])
        invariant forall k :: 0 <= k < j ==> list[k] == done[k]
        invariant forall k :: i <= k < |was| ==> list[k] == was[k]
      {
        CollapseStep(was, i, done);
        if list[i].value != 0 {
          done := done + [list[i]];
          if i != j {
            list := list[j := list[i]];
          }
          j := j + 1;
        }
        i := i + 1;
      }
      list := list[..j];
      assert list == done;
    }

    /** insert_refcount_el: a new entry with count 0 at `pos`. */
    method Insert(key: nat, pos: nat)
      requires Valid() && Fits(list, pos, key)
      modifies this`list, this`size
      ensures Valid() && list == old(list)[..pos] + [Entry(key, 0)] + old(list)[pos..]
      ensures SameCounts(list, old(list))
      ensures size == if old(|list| >= size) then old(size) + 100 else old(size)
    {
      if |list| >= size {
        size := size + 100;
      }
      InsertKeepsCounts(list, pos, key);
      list := list[..pos] + [Entry(key, 0)] + list[pos..];
    }

    /** The binary search of get_refcount_el: the index of the key, or where it belongs. */
    method Search(key: nat) returns (found: bool, low: int)
      requires Valid()
      ensures found ==> 0 <= low < |list| && list[low].key == key
      ensures !found ==> 0 <= low && Fits(list, low, key)
    {
      low := 0;
      var high := |list| - 1;
      while low <= high
        invariant 0 <= low <= high + 1 <= |list|
        invariant forall i :: 0 <= i < low ==> list[i].key < key
        invariant forall i :: high < i < |list| ==> list[i].key > key
        decreases high - low
      {
        var mid := (low + high) / 2;
        if key == list[mid].key {
          return true, mid;
        }
        if key < list[mid].key {
          high := mid - 1;
        } else {
          low := mid + 1;
        }
      }
      return false, low;
    }

    /** The entry at the cursor first, then the binary search. */
    method CursorSearch(key: nat) returns (found: bool, low: int)
      requires Valid() && list != []
      modifies this`cursor
      ensures found ==> 0 <= low < |list| && list[low].key == key
      ensures !found ==> 0 <= low && Fits(list, low, key)
    {
      if cursor >= |list| {
        cursor := 0;
      }
      if key == list[cursor].key {
        cursor := cursor + 1;
        return true, cursor - 1;
      }
      found, low := Search(key);
      if found {
        cursor := low + 1;
      }
    }

    /** A key above all others goes to the end, after a collapse if there is no room. */
    method Append(key: nat)
      requires Valid() && (list != [] ==> key > list[|list| - 1].key)
      modifies this`list, this`size
      ensures Valid() && SameCounts(list, old(list))
      ensures list != [] && list[|list| - 1].key == key
    {
      CollapsedBelow(list, key);
      CollapseKeeps(list);
      if |list| >= size {
        Collapse();
      }
      Insert(key, |list|);
    }

    /** get_refcount_el: the index of the entry of a key, or -1 if there is none and none is to
        be created.  No count changes. */
    method GetEntry(key: nat, create: bool) returns (i: int)
      requires Valid()
      modifies this
      ensures Valid() && SameCounts(list, old(list))
      ensures i >= 0 ==> i < |list| && list[i].key == key
      ensures i < 0 ==> !create && Count(list, key) == 0
    {
      while true
        invariant Valid() && SameCounts(list, old(list))
        decreases if |list| >= size then 1 else 0
      {
        if create && (|list| == 0 || key > list[|list| - 1].key) {
          Append(key);
          return |list| - 1;
        }
        if |list| == 0 {
          return -1;
        }
        var found, low := CursorSearch(key);
        if found {
          return low;
        }
        if !create {
          CountMissing(list, key);
          return -1;
        }
        if |list| >= size {
          CollapseKeeps(list);
          Collapse();
          if |list| < size {
            continue;
          }
        }
        Insert(key, low);
        return low;
      }
    }

    /** What the callers of get_refcount_el read. */
    method ValueAt(i: nat) returns (v: Value)
      requires Valid() && i < |list|
      ensures v == Count(list, list[i].key)
    {
      CountAt(list, i);
      v := list[i].value;
    }

    /** What the callers of get_refcount_el write. */
    method SetValue(i: nat, v: Value)
      requires Valid() && i < |list|
      modifies this`list
      ensures Valid() && Stored(old(list), list, old(list)[i].key, v)
    {
      forall key: nat
        ensures Count(list[i := Entry(list[i].key, v)], key)
             == if key == list[i].key then v else Count(list, key)
      {
        UpdateCounts(list, i, v, key);
      }
      list := list[i := Entry(list[i].key, v)];
    }

    /** ea_refcount_fetch */
    method Fetch(key: nat) returns (v: Value)
      requires Valid()
      modifies this
      ensures Valid() && v == Count(old(list), key) && SameCounts(list, old(list))
    {
      var i := GetEntry(key, false);
      if i < 0 {
        return 0;
      }
      v := ValueAt(i);
    }

    /** ea_refcount_increment; the count wraps around at its width. */
    method Increment(key: nat) returns (v: Value)
      requires Valid()
      modifies this
      ensures Valid() && v == (Count(old(list), key) + 1) % VALUE_LIMIT
      ensures Stored(old(list), list, key, v)
    {
      var i := GetEntry(key, true);
      v := ValueAt(i);
      v := (v + 1) % VALUE_LIMIT;
      SetValue(i, v);
    }

    /** ea_refcount_decrement */
    method Decrement(key: nat) returns (err: Err, v: Value)
      requires Valid()
      modifies this
      ensures Valid() && (err == InvalidArgument <==> Count(old(list), key) == 0)
      ensures err == InvalidArgument ==> SameCounts(list, old(list))
      ensures err == Ok ==> v == Count(old(list), key) - 1 && Stored(old(list), list, key, v)
    {
      var i := GetEntry(key, false);
      if i < 0 {
        return InvalidArgument, 0;
      }
      v := ValueAt(i);
      if v == 0 {
        return InvalidArgument, 0;
      }
      v := v - 1;
      SetValue(i, v);
      err := Ok;
    }

    /** ea_refcount_store */
    method Store(key: nat, v: Value)
      requires Valid()
      modifies this
      ensures Valid() && Stored(old(list), list, key, v)
    {
      var i := GetEntry(key, v != 0);
      if i < 0 {
        return;
      }
      SetValue(i, v);
    }

    /** ea_refcount_intr_begin */
    method Begin()
      modifies this`cursor
      ensures cursor == 0
    {
      cursor := 0;
    }

    /** ea_refcount_intr_next: the next entry with a count, or key 0 if there is none. */
    method Next() returns (key: nat, v: Value)
      requires cursor <= |list|
      modifies this`cursor
      ensures old(cursor) <= cursor <= |list|
      ensures var rest := Collapsed(list[old(cursor)..]);
              if rest == [] then key == 0 && v == 0 && cursor == |list|
              else Entry(key, v) == rest[0] && Collapsed(list[cursor..]) == rest[1..]
                   && cursor > old(cursor)
    {
      while true
        invariant old(cursor) <= cursor <= |list|
        invariant Collapsed(list[cursor..]) == Collapsed(list[old(cursor)..])
        decreases |list| - cursor
      {
        if cursor >= |list| {
          return 0, 0;
        }
        assert list[cursor..][1..] == list[cursor + 1..];
        cursor := cursor + 1;
        if list[cursor - 1].value != 0 {
          return list[cursor - 1].key, list[cursor - 1].value;
        }
      }
    }

    /** The loop of a caller: begin, then next until it returns 0.  It sees every entry with a
        count once, in ascending order, unless key 0 has one: then it sees none. */
    method Iterate() returns (seen: seq<Entry>)
      requires Valid()
      modifies this`cursor
      ensures seen == if Count(list, 0) == 0 then Collapsed(list) else []
    {
      KeyZeroFirst(list);
      Begin();
      seen := [];
      ghost var rest := Collapsed(list[cursor..]);
      var key, v := Next();
      while key != 0
        invariant cursor <= |list| && Collapsed(list) == seen + rest
        invariant seen != [] ==> Count(list, 0) == 0
        invariant if rest == [] then key == 0
                  else Entry(key, v) == rest[0] && Collapsed(list[cursor..]) == rest[1..]
        decreases |rest|
      {
        NonZeroNext(list, seen, rest);
        seen := seen + [Entry(key, v)];
        rest := Collapsed(list[cursor..]);
        key, v := Next();
      }
      NonZeroEnd(list, seen, rest);
    }
  }

  /** `pos` is where the key, which has no entry, belongs. */
  predicate Fits(s: seq<Entry>, pos: nat, key: nat) {
    && pos <= |s|
    && (forall i :: 0 <= i < pos ==> s[i].key < key)
    && (forall i :: pos <= i < |s| ==> s[i].key > key)
  }

  /** The key now has count `v`, and every other key the count it had. */
  ghost predicate Stored(s: seq<Entry>, t: seq<Entry>, key: nat, v: Value) {
    forall k: nat :: Count(t, k) == if k == key then v else Count(s, k)
  }

  lemma {:induction false} CollapsedBelow(s: seq<Entry>, key: nat)
    requires Ascending(s) && (s != [] ==> s[|s| - 1].key < key)
    ensures Fits(s, |s|, key) && Fits(Collapsed(s), |Collapsed(s)|, key)
  {
    forall i | 0 <= i < |Collapsed(s)| ensures Collapsed(s)[i].key < key {
      var j := CollapsedFrom(s, i);
    }
  }

  /** Key 0, if it has a count, comes first. */
  lemma {:induction false} KeyZeroFirst(s: seq<Entry>)
    requires Ascending(s)
    ensures Count(s, 0) != 0 <==> Collapsed(s) != [] && Collapsed(s)[0].key == 0
  {
    CollapseKeeps(s);
    CollapsedExact(s, 0);
    var c := Collapsed(s);
    if c != [] && c[0].key == 0 {
      CountAt(c, 0);
    }
  }

  lemma {:induction false} NonZeroNext(s: seq<Entry>, seen: seq<Entry>, rest: seq<Entry>)
    requires Ascending(s) && Collapsed(s) == seen + rest && rest != [] && rest[0].key != 0
    requires seen != [] ==> Count(s, 0) == 0
    ensures Count(s, 0) == 0 && seen + rest == (seen + [rest[0]]) + rest[1..]
  {
    KeyZeroFirst(s);
  }

  lemma {:induction false} NonZeroEnd(s: seq<Entry>, seen: seq<Entry>, rest: seq<Entry>)
    requires Ascending(s) && Collapsed(s) == seen + rest && (rest != [] ==> rest[0].key == 0)
    requires seen != [] ==> Count(s, 0) == 0
    ensures seen == if Count(s, 0) == 0 then Collapsed(s) else []
  {
    KeyZeroFirst(s);
    CollapseKeeps(s);
    if rest != [] {
      assert Collapsed(s)[|seen|] == rest[0];
    }
  }
}
