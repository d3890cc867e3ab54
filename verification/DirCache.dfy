/** The list of directories of the stress test and the cache in front of its linear search
    (contrib/fsstress.c). */
module DirCache {

  const NDCACHE: nat := 64
  const FLIST_SLOT_INCR: nat := 16

  datatype Fent = Fent(id: nat, parent: int)

  /** The slot in which a linear search finds the identifier, or -1. */
  function FirstSlot(fents: seq<Fent>, id: nat): (r: int)
    ensures -1 <= r < |fents|
    ensures r >= 0 ==> fents[r].id == id && forall k :: 0 <= k < r ==> fents[k].id != id
    ensures r < 0 ==> forall k :: 0 <= k < |fents| ==> fents[k].id != id
  {
    if fents == [] then -1
    else if fents[0].id == id then 0
    else
      var rest := FirstSlot(fents[1..], id);
      assert rest < 0 ==> forall k :: 0 < k < |fents| ==> fents[k] == fents[1..][k - 1];
      if rest < 0 then -1 else rest + 1
  }

  predicate Unique(fents: seq<Fent>) {
    forall i, j :: 0 <= i < j < |fents| ==> fents[i].id != fents[j].id
  }

  /** A cache entry is empty or points at a live directory that belongs into it. */
  predicate Points(fents: seq<Fent>, cache: seq<int>) {
    && |cache| == NDCACHE
    && forall h :: 0 <= h < NDCACHE && cache[h] >= 0 ==>
         cache[h] < |fents| && fents[cache[h]].id % NDCACHE == h
  }

  class DirList {
    var fents: seq<Fent>   // the first nfiles entries of the directory list
    var nslots: nat
    const dcache: array<int>

    ghost predicate Valid()
      reads this, dcache
    {
      dcache.Length == NDCACHE && |fents| <= nslots && Points(fents, dcache[..]) && Unique(fents)
    }

    /** dcache_init on an empty list */
    constructor ()
      ensures Valid() && fents == [] && fresh(dcache)
    {
      fents, nslots := [], 0;
      dcache := new int[NDCACHE](_ => -1);
    }

    /** add_to_flist for a directory with an identifier not used so far */
    method Add(id: nat, parent: int)
      requires Valid() && FirstSlot(fents, id) < 0
      modifies this`fents, this`nslots
      ensures Valid() && fents == old(fents) + [Fent(id, parent)]
    {
      if |fents| == nslots {
        nslots := nslots + FLIST_SLOT_INCR;
      }
      fents := fents + [Fent(id, parent)];
    }

    /** dcache_enter */
    method Enter(id: nat, slot: nat)
      requires Valid() && slot < |fents| && fents[slot].id == id
      modifies dcache
      ensures Valid()
    {
      dcache[id % NDCACHE] := slot;
    }

    /** dcache_lookup */
    method CacheLookup(id: nat) returns (slot: int)
      requires Valid()
      ensures slot >= 0 ==> slot == FirstSlot(fents, id)
    {
      slot := dcache[id % NDCACHE];
      assert slot == dcache[..][id % NDCACHE];
      if slot < 0 || fents[slot].id != id {
        slot := -1;
      }
    }

    /** dcache_purge: afterwards no cache entry points at a directory with this identifier. */
    method Purge(id: nat)
      requires Valid()
      modifies dcache
      ensures Valid()
      ensures forall h :: 0 <= h < NDCACHE && dcache[h] >= 0 ==>
                dcache[h] == old(dcache[h]) && fents[dcache[h]].id != id
    {
      var h := id % NDCACHE;
      assert forall k :: 0 <= k < NDCACHE ==> dcache[k] == dcache[..][k];
      if dcache[h] >= 0 && fents[dcache[h]].id == id {
        dcache[h] := -1;
      }
    }

    /** del_from_flist for directories: the last entry moves into the slot. */
    method Delete(slot: nat)
      requires Valid() && slot < |fents|
      modifies this`fents, dcache
      ensures Valid()
      ensures fents == old(fents)[slot := old(fents)[|old(fents)| - 1]][..|old(fents)| - 1]
    {
      Purge(fents[slot].id);
      if slot != |fents| - 1 {
        Purge(fents[|fents| - 1].id);
        Removed(fents, dcache[..], slot);
        fents := fents[slot := fents[|fents| - 1]][..|fents| - 1];
      } else {
        Removed(fents, dcache[..], slot);
        fents := fents[..|fents| - 1];
      }
    }

    /** dirid_to_fent: what the linear search finds, whatever is in the cache. */
    method DirIdToFent(id: nat) returns (slot: int)
      requires Valid()
      modifies dcache
      ensures Valid() && slot == FirstSlot(fents, id)
    {
      slot := CacheLookup(id);
      if slot >= 0 {
        return;
      }
      slot := 0;
      while slot < |fents|
        invariant 0 <= slot <= |fents| && forall k :: 0 <= k < slot ==> fents[k].id != id
        invariant dcache[..] == old(dcache[..])
      {
        if fents[slot].id == id {
          Enter(id, slot);
          return;
        }
        slot := slot + 1;
      }
      return -1;
    }
  }

  /** After a swap-removal the cache points only at live directories again, if nothing in it
      pointed at the two entries concerned. */
  lemma {:induction false} Removed(fents: seq<Fent>, cache: seq<int>, slot: nat)
    requires Points(fents, cache) && Unique(fents) && slot < |fents|
    requires forall h :: 0 <= h < NDCACHE ==> cache[h] != slot && cache[h] != |fents| - 1
    ensures var fents' := fents[slot := fents[|fents| - 1]][..|fents| - 1];
            Points(fents', cache) && Unique(fents')
  {
  }

  /** One operation of the program on its directories. */
  datatype Op = AddDir(id: nat, parent: int) | DeleteDir(slot: nat) | Find(id: nat)

  /** Over any run of operations every search through the cache finds what a linear search of
      the list at that moment finds. */
  method Run(d: DirList, ops: seq<Op>) returns (agree: bool)
    requires d.Valid()
    modifies d, d.dcache
    ensures d.Valid() && agree
  {
    agree := true;
    for n := 0 to |ops|
      invariant d.Valid() && agree
    {
      match ops[n]
      case AddDir(id, parent) =>
        if FirstSlot(d.fents, id) < 0 {
          d.Add(id, parent);
        }
      case DeleteDir(slot) =>
        if slot < |d.fents| {
          d.Delete(slot);
        }
      case Find(id) =>
        var slot := d.DirIdToFent(id);
        agree := agree && slot == FirstSlot(d.fents, id);
    }
  }
}
