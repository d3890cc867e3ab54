/** The index of encrypted inodes and the numbers of their encryption policies
    (e2fsck/encrypted_files.c). */
module EncryptedFiles {
  import opened Basics

  const NO_ENCRYPTION_POLICY: nat := 0xFFFF_FFFF
  const CORRUPT_ENCRYPTION_POLICY: nat := 0xFFFF_FFFE
  const UNRECOGNIZED_ENCRYPTION_POLICY: nat := 0xFFFF_FFFD

  const NONCE_SIZE: nat := 16
  const POLICY_V1_SIZE: nat := 12
  const POLICY_V2_SIZE: nat := 24

  // ---- Policies ----

  /** A policy: a context without its nonce, that is its version and the bytes behind it. */
  datatype Policy = Policy(version: byte, rest: seq<byte>)

  datatype Parsed = Recognized(policy: Policy) | Corrupt | Unrecognized

  /** fscrypt_context_to_policy */
  function ParseContext(xattr: seq<byte>): Parsed {
    if |xattr| < 1 || xattr[0] == 0 then Corrupt
    else if xattr[0] == 1 then
      if |xattr| != POLICY_V1_SIZE + NONCE_SIZE then Corrupt
      else Recognized(Policy(1, xattr[1..POLICY_V1_SIZE]))
    else if xattr[0] == 2 then
      if |xattr| != POLICY_V2_SIZE + NONCE_SIZE then Corrupt
      else Recognized(Policy(2, xattr[1..POLICY_V2_SIZE]))
    else Unrecognized
  }

  /** The bytes of a context: the version, the other bytes of the policy, and a nonce. */
  function Context(p: Policy, nonce: seq<byte>): seq<byte> {
    [p.version] + p.rest + nonce
  }

  /** A policy of version 1 has 11 bytes behind the version, one of version 2 has 23. */
  predicate PolicyOk(p: Policy) {
    (p.version == 1 && |p.rest| == 11) || (p.version == 2 && |p.rest| == 23)
  }

  /** A policy put into a context, with any nonce, is recognized again. */
  lemma {:induction false} ContextRoundTrip(p: Policy, nonce: seq<byte>)
    requires PolicyOk(p) && |nonce| == 16
    ensures ParseContext(Context(p, nonce)) == Recognized(p)
  {
    assert Context(p, nonce)[1..|p.rest| + 1] == p.rest;
  }

  /** The empty context, version 0, and the known versions with another size. */
  predicate CorruptBytes(x: seq<byte>) {
    |x| == 0 || x[0] == 0 || (x[0] == 1 && |x| != 28) || (x[0] == 2 && |x| != 40)
  }

  /** Every context is corrupt, or that of a policy, or of a version not known. */
  lemma {:induction false} ContextKinds(x: seq<byte>)
    ensures ParseContext(x).Corrupt? <==> CorruptBytes(x)
    ensures ParseContext(x).Unrecognized? <==> |x| > 0 && x[0] >= 3
    ensures ParseContext(x).Recognized? <==>
              exists p: Policy, nonce: seq<byte> :: PolicyOk(p) && |nonce| == 16 && x == Context(p, nonce)
  {
    if ParseContext(x).Recognized? {
      var p, nonce := ParseContext(x).policy, x[|x| - 16..];
      assert PolicyOk(p) && x == Context(p, nonce);
    }
    if p: Policy, nonce: seq<byte> :| PolicyOk(p) && |nonce| == 16 && x == Context(p, nonce) {
      ContextRoundTrip(p, nonce);
    }
  }

  /** The same policy means: equal up to the nonce in the last 16 bytes. */
  lemma {:induction false} SamePolicy(x: seq<byte>, y: seq<byte>)
    requires ParseContext(x).Recognized? && ParseContext(y).Recognized?
    ensures ParseContext(x) == ParseContext(y) <==>
              |x| == |y| && x[..|x| - NONCE_SIZE] == y[..|y| - NONCE_SIZE]
  {
    var m, n := |x| - NONCE_SIZE, |y| - NONCE_SIZE;
    assert x[..m] == [x[0]] + x[1..m] && y[..n] == [y[0]] + y[1..n];
  }

  /** memcmp; the buffers of policies of one version have one size. */
  function Memcmp(a: seq<byte>, b: seq<byte>): int {
    if a == [] || b == [] then |a| - |b|
    else if a[0] != b[0] then a[0] as int - b[0] as int
    else Memcmp(a[1..], b[1..])
  }

  /** cmp_fscrypt_policies */
  function Cmp(a: Policy, b: Policy): int {
    if a.version != b.version then a.version as int - b.version as int
    else Memcmp(a.rest, b.rest)
  }

  lemma {:induction false} MemcmpOrder(a: seq<byte>, b: seq<byte>, c: seq<byte>)
    ensures Memcmp(a, b) == 0 <==> a == b
    ensures Memcmp(a, b) < 0 <==> Memcmp(b, a) > 0
    ensures Memcmp(a, b) < 0 && Memcmp(b, c) < 0 ==> Memcmp(a, c) < 0
  {
    if a != [] && b != [] {
      MemcmpOrder(a[1..], b[1..], if c == [] then c else c[1..]);
      assert a == [a[0]] + a[1..] && b == [b[0]] + b[1..];
    }
  }

  /** The comparison is a total order, and only equal policies compare equal. */
  lemma {:induction false} CmpOrder(a: Policy, b: Policy, c: Policy)
    ensures Cmp(a, b) == 0 <==> a == b
    ensures Cmp(a, b) < 0 <==> Cmp(b, a) > 0
    ensures Cmp(a, b) < 0 && Cmp(b, c) < 0 ==> Cmp(a, c) < 0
  {
    MemcmpOrder(a.rest, b.rest, c.rest);
  }

  // ---- The search tree of the policies seen ----

  datatype Tree = Leaf | Node(left: Tree, policy: Policy, id: nat, right: Tree)

  function Ids(t: Tree): map<Policy, nat> {
    if t.Leaf? then map[] else Ids(t.left) + Ids(t.right) + map[t.policy := t.id]
  }

  ghost predicate Ordered(t: Tree) {
    t.Node? ==>
      && Ordered(t.left) && Ordered(t.right)
      && (forall p :: p in Ids(t.left) ==> Cmp(p, t.policy) < 0)
      && (forall p :: p in Ids(t.right) ==> Cmp(t.policy, p) < 0)
  }

  /** Linking a new node where the search for its policy ended. */
  function Linked(t: Tree, p: Policy, id: nat): Tree {
    if t.Leaf? then Node(Leaf, p, id, Leaf)
    else if Cmp(p, t.policy) < 0 then t.(left := Linked(t.left, p, id))
    else t.(right := Linked(t.right, p, id))
  }

  lemma {:induction false} UnionInsert<K, V>(l: map<K, V>, r: map<K, V>, top: map<K, V>, p: K, id: V)
    requires p !in r && p !in top
    ensures l[p := id] + r + top == (l + r + top)[p := id]
    ensures l + r[p := id] + top == (l + r + top)[p := id]
  {
  }

  lemma {:induction false} LinkedIds(t: Tree, p: Policy, id: nat)
    requires p !in Ids(t)
    ensures Ids(Linked(t, p, id)) == Ids(t)[p := id]
  {
    if t.Node? {
      var l, r, top := Ids(t.left), Ids(t.right), map[t.policy := t.id];
      if Cmp(p, t.policy) < 0 {
        LinkedIds(t.left, p, id);
        UnionInsert(l, r, top, p, id);
      } else {
        LinkedIds(t.right, p, id);
        UnionInsert(l, r, top, p, id);
      }
    }
  }

  lemma {:induction false} LinkedOrdered(t: Tree, p: Policy, id: nat)
    requires Ordered(t) && p !in Ids(t)
    ensures Ordered(Linked(t, p, id))
  {
    if t.Node? {
      CmpOrder(p, t.policy, p);
      CmpOrder(t.policy, p, t.policy);
      if Cmp(p, t.policy) < 0 {
        LinkedOrdered(t.left, p, id);
        LinkedIds(t.left, p, id);
      } else {
        LinkedOrdered(t.right, p, id);
        LinkedIds(t.right, p, id);
      }
    }
  }

  /** One step of the search: the policy, if the tree has it, is in the subtree. */
  lemma {:induction false} SearchStep(t: Tree, p: Policy)
    requires Ordered(t) && t.Node?
    ensures Cmp(p, t.policy) == 0 ==> p in Ids(t) && Ids(t)[p] == t.id
    ensures Cmp(p, t.policy) < 0 ==> SameAt(Ids(t), Ids(t.left), p)
    ensures Cmp(p, t.policy) > 0 ==> SameAt(Ids(t), Ids(t.right), p)
    ensures Ordered(t.left) && Ordered(t.right)
  {
    CmpOrder(p, t.policy, p);
    CmpOrder(t.policy, p, t.policy);
  }

  predicate SameAt(m: map<Policy, nat>, n: map<Policy, nat>, p: Policy) {
    (p in m <==> p in n) && (p in m ==> m[p] == n[p])
  }

  // ---- The ranges ----

  datatype Range = Range(first: nat, last: nat, id: nat)

  predicate Holds(r: Range, ino: nat) {
    r.first <= ino <= r.last
  }

  /** The ranges ascend, do not overlap, and no two of them could be one. */
  predicate Maximal(rs: seq<Range>) {
    && (forall i :: 0 <= i < |rs| ==> rs[i].first <= rs[i].last)
    && (forall i, j :: 0 <= i < j < |rs| ==>
          rs[i].last < rs[j].first && (rs[i].last + 1 == rs[j].first ==> rs[i].id != rs[j].id))
  }

  /** What the ranges say of an inode. */
  function Lookup(rs: seq<Range>, ino: nat): Option<nat> {
    if rs == [] then None
    else
      var last := rs[|rs| - 1];
      if Holds(last, ino) then Some(last.id) else Lookup(rs[..|rs| - 1], ino)
  }

  /** The ranges say of each inode what the map says. */
  ghost predicate Agree(rs: seq<Range>, ids: map<nat, nat>) {
    forall ino: nat :: Lookup(rs, ino) == if ino in ids then Some(ids[ino]) else None
  }

  lemma {:induction false} LookupAt(rs: seq<Range>, i: nat, ino: nat)
    requires Maximal(rs) && i < |rs| && Holds(rs[i], ino)
    ensures Lookup(rs, ino) == Some(rs[i].id)
  {
    if i < |rs| - 1 {
      LookupAt(rs[..|rs| - 1], i, ino);
    }
  }

  lemma {:induction false} LookupMissing(rs: seq<Range>, ino: nat)
    requires forall i :: 0 <= i < |rs| ==> !Holds(rs[i], ino)
    ensures Lookup(rs, ino) == None
  {
    if rs != [] {
      LookupMissing(rs[..|rs| - 1], ino);
    }
  }

  /** Appending an inode above all others: the last range is extended or a new one begun. */
  function Appended(rs: seq<Range>, ino: nat, id: nat): seq<Range> {
    if rs != [] && ino == rs[|rs| - 1].last + 1 && id == rs[|rs| - 1].id
    then rs[|rs| - 1 := rs[|rs| - 1].(last := ino)]
    else rs + [Range(ino, ino, id)]
  }

  lemma {:induction false} AllBelow(rs: seq<Range>, ino: nat)
    requires Maximal(rs) && (rs != [] ==> ino > rs[|rs| - 1].last)
    ensures forall i :: 0 <= i < |rs| ==> rs[i].last < ino
    ensures Lookup(rs, ino) == None
  {
    forall i | 0 <= i < |rs| ensures rs[i].last < ino {
      if i < |rs| - 1 { assert rs[i].last < rs[|rs| - 1].first; }
    }
    LookupMissing(rs, ino);
  }

  lemma {:induction false} LastIsLargest(rs: seq<Range>, ids: map<nat, nat>, ino: nat)
    requires Maximal(rs) && Agree(rs, ids)
    ensures (exists i :: i in ids && ino <= i) <==> rs != [] && ino <= rs[|rs| - 1].last
  {
    if rs != [] && ino <= rs[|rs| - 1].last {
      var last := rs[|rs| - 1].last;
      assert Lookup(rs, last).Some? && last in ids;
    } else if exists i :: i in ids && ino <= i {
      var i :| i in ids && ino <= i;
      AllBelow(rs, i);
      assert Lookup(rs, i) == Some(ids[i]);
    }
  }

  lemma {:induction false} AppendedMaximal(rs: seq<Range>, ino: nat, id: nat)
    requires Maximal(rs) && (rs != [] ==> ino > rs[|rs| - 1].last)
    ensures Maximal(Appended(rs, ino, id))
  {
    AllBelow(rs, ino);
  }

  lemma {:induction false} AppendedLookup(rs: seq<Range>, ino: nat, id: nat, n: nat)
    requires rs != [] ==> rs[|rs| - 1].first <= rs[|rs| - 1].last
    ensures Lookup(Appended(rs, ino, id), n) == if n == ino then Some(id) else Lookup(rs, n)
  {
    var rs' := Appended(rs, ino, id);
    if |rs'| == |rs| {
      assert rs'[..|rs| - 1] == rs[..|rs| - 1];
    } else {
      assert rs'[..|rs|] == rs;
    }
  }

  ghost predicate Tells(rs: seq<Range>, ids: map<nat, nat>) {
    Maximal(rs) && Agree(rs, ids)
  }

  /** The ranges stay as few as they can be and tell of one more inode. */
  lemma {:induction false} AppendedTells(rs: seq<Range>, ids: map<nat, nat>, ino: nat, id: nat)
    requires Tells(rs, ids) && (rs != [] ==> ino > rs[|rs| - 1].last)
    ensures ino !in ids && Tells(Appended(rs, ino, id), ids[ino := id])
  {
    AllBelow(rs, ino);
    AppendedMaximal(rs, ino, id);
    forall n: nat ensures Lookup(Appended(rs, ino, id), n) == if n == ino then Some(id) else Lookup(rs, n) {
      AppendedLookup(rs, ino, id, n);
    }
  }

  // ---- The index ----

  /** Numbers are 32 bits wide. */
  const ID_LIMIT: nat := 0x1_0000_0000

  /** The policies seen are numbered from 0; the numbers start again when they run out. */
  ghost predicate Numbered(numbers: map<Policy, nat>, next: nat) {
    && next == |numbers| % ID_LIMIT
    && (forall p :: p in numbers ==> numbers[p] < ID_LIMIT)
    && (|numbers| <= ID_LIMIT ==> (forall p :: p in numbers ==> numbers[p] < |numbers|) && Apart(numbers))
  }

  /** No two policies have one number. */
  ghost predicate Apart(numbers: map<Policy, nat>) {
    forall p, q :: p in numbers && q in numbers && numbers[p] == numbers[q] ==> p == q
  }

  function NextNumber(next: nat): nat {
    if next + 1 == ID_LIMIT then 0 else next + 1
  }

  lemma {:induction false} CountOn(c: nat)
    ensures (c + 1) % ID_LIMIT == NextNumber(c % ID_LIMIT)
  {
    var q, r := c / ID_LIMIT, c % ID_LIMIT;
    assert c == q * ID_LIMIT + r;
    if r + 1 == ID_LIMIT {
      assert c + 1 == (q + 1) * ID_LIMIT;
    } else {
      assert c + 1 == q * ID_LIMIT + (r + 1);
    }
  }

  lemma {:induction false} NumberedMore(numbers: map<Policy, nat>, next: nat, p: Policy)
    requires Numbered(numbers, next) && p !in numbers
    ensures Numbered(numbers[p := next], NextNumber(next))
  {
    hide Apart, NextNumber;
    CountOn(|numbers|);
    var more := numbers[p := next];
    assert |more| == |numbers| + 1;
    if |numbers| < ID_LIMIT {
      assert next == |numbers|;
      ApartMore(numbers, next, p, more);
    }
  }

  lemma {:induction false} ApartMore(numbers: map<Policy, nat>, next: nat, p: Policy, more: map<Policy, nat>)
    requires more == numbers[p := next]
    requires Apart(numbers) && p !in numbers && forall q :: q in numbers ==> numbers[q] < next
    ensures Apart(more) && forall q :: q in more ==> more[q] < next + 1
  {
    assert forall q :: q in numbers ==> more[q] == numbers[q] < more[p];
  }

  /** Different numbers below `n` are no more than `n`. */
  lemma {:induction false} ApartFew(numbers: map<Policy, nat>, n: nat)
    requires Apart(numbers) && forall p :: p in numbers ==> numbers[p] < n
    ensures |numbers| <= n
    decreases n
  {
    if n == 0 {
      assert numbers.Keys == {};
    } else if p :| p in numbers && numbers[p] == n - 1 {
      var rest := numbers - {p};
      assert numbers.Keys == rest.Keys + {p};
      ApartFew(rest, n - 1);
    } else {
      ApartFew(numbers, n - 1);
    }
  }

  /** The policies seen have numbers of their own exactly as long as there are no more of them than
      32-bit numbers; and their numbers are none of the special ones as long as there are no more
      than the smallest of these. */
  lemma {:induction false} NumbersApart(numbers: map<Policy, nat>, next: nat)
    requires Numbered(numbers, next)
    ensures Apart(numbers) <==> |numbers| <= ID_LIMIT
    ensures |numbers| <= UNRECOGNIZED_ENCRYPTION_POLICY ==>
              forall p :: p in numbers ==> numbers[p] < UNRECOGNIZED_ENCRYPTION_POLICY
  {
    if Apart(numbers) {
      ApartFew(numbers, ID_LIMIT);
    }
  }

  /** The inodes with a recognized context have the number of its policy, the others the special
      number. */
  ghost predicate Known(ids: map<nat, nat>, contexts: map<nat, Policy>, numbers: map<Policy, nat>) {
    && contexts.Keys <= ids.Keys
    && (forall i :: i in contexts ==> contexts[i] in numbers && ids[i] == numbers[contexts[i]])
    && (forall i :: i in ids && i !in contexts ==> ids[i] == UNRECOGNIZED_ENCRYPTION_POLICY)
  }

  predicate KnownNumber(numbers: map<Policy, nat>, parsed: Parsed, id: nat) {
    match parsed
    case Recognized(p) => p in numbers && id == numbers[p]
    case Unrecognized => id == UNRECOGNIZED_ENCRYPTION_POLICY
    case Corrupt => false
  }

  lemma {:induction false} KnownMore(ids: map<nat, nat>, contexts: map<nat, Policy>,
                                     numbers: map<Policy, nat>, ino: nat, id: nat, parsed: Parsed)
    requires Known(ids, contexts, numbers) && KnownNumber(numbers, parsed, id) && ino !in ids
    ensures Known(ids[ino := id], if parsed.Recognized? then contexts[ino := parsed.policy] else contexts,
                  numbers)
  {
  }

  lemma {:induction false} KnownGrows(ids: map<nat, nat>, contexts: map<nat, Policy>, numbers: map<Policy, nat>,
                                      p: Policy, id: nat)
    requires Known(ids, contexts, numbers)
    ensures p !in numbers ==> Known(ids, contexts, numbers[p := id])
  {
  }

  lemma {:induction false} NoneInLeaf(t: Tree, p: Policy)
    requires t.Leaf?
    ensures p !in Ids(t)
  {
  }

  datatype Outcome = Stored | NoXattr | BadXattr | OutOfOrder

  class Index {
    const inodesCount: nat
    var ranges: seq<Range>
    var capacity: nat
    var policies: Tree
    var nextId: nat
    ghost var ids: map<nat, nat>             // what was appended
    ghost var contexts: map<nat, Policy>     // the policies of the inodes appended

    ghost predicate Valid()
      reads this
    {
      && Tells(ranges, ids) && |ranges| <= capacity
      && Ordered(policies) && Numbered(Ids(policies), nextId)
      && Known(ids, contexts, Ids(policies))
    }

    constructor (inodesCount: nat)
      ensures Valid() && ids == map[] && contexts == map[] && this.inodesCount == inodesCount
    {
      this.inodesCount := inodesCount;
      ranges, capacity, policies, nextId := [], 0, Leaf, 0;
      ids, contexts := map[], map[];
    }

    /** The part of get_encryption_policy_id that finds or makes the number of a policy. */
    method PolicyId(p: Policy) returns (id: nat)
      requires Ordered(policies) && Numbered(Ids(policies), nextId)
      modifies this`policies, this`nextId
      ensures Ordered(policies) && Numbered(Ids(policies), nextId)
      ensures p in Ids(policies) && id == Ids(policies)[p]
      ensures Ids(policies) == if p in old(Ids(policies)) then old(Ids(policies))
                               else old(Ids(policies))[p := old(nextId)]
    {
      hide Ordered, Ids, Cmp, Linked, Numbered;
      var t := policies;
      while t.Node?
        invariant policies == old(policies) && nextId == old(nextId) && Ordered(policies)
        invariant Ordered(t) && SameAt(Ids(policies), Ids(t), p)
        decreases t
      {
        SearchStep(t, p);
        var res := Cmp(p, t.policy);
        if res < 0 {
          t := t.left;
        } else if res > 0 {
          t := t.right;
        } else {
          return t.id;
        }
      }
      NoneInLeaf(t, p);
      LinkedIds(policies, p, nextId);
      LinkedOrdered(policies, p, nextId);
      NumberedMore(Ids(policies), nextId, p);
      id := nextId;
      policies := Linked(policies, p, id);
      nextId := NextNumber(nextId);
    }

    /** append_ino_and_policy_id */
    method Append(ino: nat, id: nat) returns (ok: bool)
      requires Maximal(ranges) && |ranges| <= capacity
      modifies this`ranges, this`capacity
      ensures ok <==> old(ranges) == [] || ino > old(ranges)[|old(ranges)| - 1].last
      ensures ranges == if ok then Appended(old(ranges), ino, id) else old(ranges)
      ensures |ranges| <= capacity
    {
      if |ranges| > 0 {
        var last := ranges[|ranges| - 1];
        if ino <= last.last {
          return false;
        }
        if ino == last.last + 1 && id == last.id {
          ranges := ranges[|ranges| - 1 := last.(last := last.last + 1)];
          return true;
        }
      }
      if |ranges| == capacity {
        var more := capacity * 2;
        if more < 128 {
          more := 128;
        }
        if more > inodesCount {
          more := inodesCount;
        }
        if more < capacity + 1 {
          more := capacity + 1;
        }
        capacity := more;
      }
      ranges := ranges + [Range(ino, ino, id)];
      return true;
    }

    /** add_encrypted_file: inodes come with their context, if they have one.  A context of a policy,
        with any nonce, is stored with the number of that policy. */
    method Add(ino: nat, xattr: Option<seq<byte>>) returns (r: Outcome)
      requires Valid()
      modifies this
      ensures Valid()
      ensures r == NoXattr <==> xattr.None?
      ensures r == BadXattr <==> xattr.Some? && CorruptBytes(xattr.value)
      ensures r == OutOfOrder <==> xattr.Some? && !CorruptBytes(xattr.value)
                                   && exists i :: i in old(ids) && ino <= i
      ensures r == Stored ==> ino in ids && ids == old(ids)[ino := ids[ino]]
      ensures r != Stored ==> ids == old(ids) && contexts == old(contexts)
      ensures r == Stored ==> contexts == match ParseContext(xattr.value)
                                          case Recognized(p) => old(contexts)[ino := p]
                                          case _ => old(contexts)
      ensures r == Stored ==>
                forall p: Policy, nonce: seq<byte> ::
                  PolicyOk(p) && |nonce| == 16 && xattr.value == Context(p, nonce) ==>
                    ino in contexts && contexts[ino] == p && p in Ids(policies) && ids[ino] == Ids(policies)[p]
      ensures r == Stored && xattr.value[0] >= 3 ==> ids[ino] == UNRECOGNIZED_ENCRYPTION_POLICY
    {
      hide Tells, Known, Ordered, Numbered, Ids, ParseContext, Context, PolicyOk;
      if xattr.None? {
        return NoXattr;
      }
      var id: nat, parsed := UNRECOGNIZED_ENCRYPTION_POLICY, ParseContext(xattr.value);
      ContextKinds(xattr.value);
      forall p: Policy, nonce: seq<byte> | PolicyOk(p) && |nonce| == 16 && xattr.value == Context(p, nonce)
        ensures parsed == Recognized(p)
      {
        ContextRoundTrip(p, nonce);
      }
      if parsed.Corrupt? {
        return BadXattr;
      }
      if parsed.Recognized? {
        KnownGrows(ids, contexts, Ids(policies), parsed.policy, nextId);
        id := PolicyId(parsed.policy);
      }
      assert parsed.Recognized? ==> KnownNumber(Ids(policies), parsed, id);
      r := Record(ino, id, parsed);
    }

    /** The end of add_encrypted_file. */
    method Record(ino: nat, id: nat, ghost parsed: Parsed) returns (r: Outcome)
      requires Valid() && KnownNumber(Ids(policies), parsed, id)
      modifies this`ranges, this`capacity, this`ids, this`contexts
      ensures Valid() && r in {Stored, OutOfOrder}
      ensures r == OutOfOrder <==> exists i :: i in old(ids) && ino <= i
      ensures r == OutOfOrder ==> ids == old(ids) && contexts == old(contexts)
      ensures r == Stored ==> ids == old(ids)[ino := id]
      ensures r == Stored ==> contexts == if parsed.Recognized? then old(contexts)[ino := parsed.policy]
                                          else old(contexts)
    {
      hide Agree, Maximal, Known, KnownNumber, Ordered, Numbered, Appended, Ids;
      ghost var was := ranges;
      LastIsLargest(ranges, ids, ino);
      var ok := Append(ino, id);
      if !ok {
        return OutOfOrder;
      }
      AppendedTells(was, ids, ino, id);
      KnownMore(ids, contexts, Ids(policies), ino, id, parsed);
      ids := ids[ino := id];
      if parsed.Recognized? {
        contexts := contexts[ino := parsed.policy];
      }
      return Stored;
    }

    /** find_encryption_policy */
    method Find(ino: nat) returns (id: nat)
      requires Valid()
      ensures id == if ino in ids then ids[ino] else NO_ENCRYPTION_POLICY
    {
      var l, r := 0, |ranges|;
      while l < r
        invariant 0 <= l <= r <= |ranges|
        invariant forall i :: 0 <= i < l ==> ranges[i].last < ino
        invariant forall i :: r <= i < |ranges| ==> ino < ranges[i].first
      {
        var m := l + (r - l) / 2;
        if ino < ranges[m].first {
          r := m;
        } else if ino > ranges[m].last {
          l := m + 1;
        } else {
          LookupAt(ranges, m, ino);
          return ranges[m].id;
        }
      }
      LookupMissing(ranges, ino);
      return NO_ENCRYPTION_POLICY;
    }

    /** Of two inodes with recognized contexts, the index tells the same number exactly if
        their policies are the same, as long as the policies have not outnumbered the numbers. */
    method SameNumber(i: nat, j: nat) returns (same: bool)
      requires Valid() && i in contexts && j in contexts
      ensures contexts[i] == contexts[j] ==> same
      ensures |Ids(policies)| <= ID_LIMIT ==> (same <==> contexts[i] == contexts[j])
    {
      hide Tells, Ordered, Ids;
      var a := Find(i);
      var b := Find(j);
      return a == b;
    }
  }
}
