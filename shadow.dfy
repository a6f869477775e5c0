/**
 * kpatch shadow variables: named payloads attached to arbitrary object
 * addresses, kept in a 2^12-bucket hash table keyed by the object address.
 *
 * The model is sequential.  The spinlock and the RCU read sections exist only
 * for concurrency and are not modelled; call_rcu is an append to a list of
 * pending releases that an explicit grace-period step drains.  The allocator
 * is a slab whose allocations fail according to an injected fault schedule.
 * Addresses are natural numbers and NULL is 0.  Sizes and offsets are those of
 * a 64-bit build.
 */
module Shadow {

  import opened Common

  // ---------------------------------------------------------------------------
  // Layout of struct kpatch_shadow on a 64-bit build
  // ---------------------------------------------------------------------------

  /** sizeof(shadow->data): payloads of at most this many bytes live in the entry. */
  const PointerSize: nat := 8
  /** Offset of the data field: hlist_node (2 pointers), rcu_head (2 pointers), obj, var. */
  const DataOffset: nat := 6 * PointerSize
  /** sizeof(struct kpatch_shadow). */
  const EntrySize: nat := 7 * PointerSize
  /** Every block kmalloc returns is aligned to this many bytes. */
  const KmallocAlign: nat := 8

  // ---------------------------------------------------------------------------
  // The hash table's bucket function
  // ---------------------------------------------------------------------------

  const HashBits: nat := 12
  const HashSize: nat := 4096
  const GoldenRatio64: nat := 0x61C8864680B583EB
  const WordModulus: nat := 0x1_0000_0000_0000_0000

  /**
   * The bucket hash_for_each_possible and hash_add_rcu pick for an object:
   * hash_64 of the address, the top HashBits bits of a 64-bit multiplicative hash.
   */
  function BucketOf(obj: nat): (b: nat)
    ensures b < HashSize
  {
    ((obj * GoldenRatio64) % WordModulus) / 0x10_0000_0000_0000
  }

  // ---------------------------------------------------------------------------
  // The name pointer and the flag bits share one word (shadow.c:56-82)
  // ---------------------------------------------------------------------------

  const FlagInplace: nat := 1
  const FlagMask: nat := 3

  /** flags |= SHADOW_FLAG_INPLACE: bit 0 becomes set, every other bit is kept. */
  function SetInplace(w: nat): (r: nat)
    ensures r % 2 == 1 && r / 2 == w / 2
  {
    if w % 2 == 0 then w + FlagInplace else w
  }

  /** flags & SHADOW_FLAG_INPLACE, read as a truth value. */
  function IsInplace(w: nat): (b: bool)
    ensures b <==> SetInplace(w) == w
  {
    w % 2 == 1
  }

  /** var & SHADOW_PTR_MASK: the two flag bits cleared, every other bit kept. */
  function ShadowVar(w: nat): (r: nat)
    ensures r % 4 == 0 && r / 4 == w / 4
  {
    w - w % (FlagMask + 1)
  }

  /** kmalloc's alignment leaves the two flag bits of a block address clear. */
  lemma KmallocAlignedToFour(p: nat)
    requires p % KmallocAlign == 0
    ensures p % 4 == 0
  {
    var k := p / KmallocAlign;
    assert p == 4 * (2 * k);
  }

  /** For a 4-byte-aligned name pointer, tagging it loses nothing. */
  lemma TaggedNameRoundTrip(p: nat)
    requires p % 4 == 0
    ensures !IsInplace(p) && ShadowVar(p) == p
    ensures IsInplace(SetInplace(p)) && ShadowVar(SetInplace(p)) == p
  {
  }

  // ---------------------------------------------------------------------------
  // Entries
  // ---------------------------------------------------------------------------

  /**
   * One struct kpatch_shadow.  `self` is the address kmalloc returned for the
   * entry, `obj` the owner's address, `varword` the union of `var` and `flags`
   * (the name pointer with the flag bits in its low bits), `name` the text of
   * the name copy that word points at, and `data` the contents of the data
   * field.  For an in-place entry the caller's
   * payload overlays the data field, so `data` then means nothing to the store.
   */
  datatype Entry = Entry(self: nat, obj: nat, varword: nat, name: string, data: nat)

  /** shadow_var(shadow): the name copy's address. */
  function NamePtr(e: Entry): nat
  {
    ShadowVar(e.varword)
  }

  /** &shadow->data for the entry at `self`. */
  function DataField(self: nat): nat
  {
    self + DataOffset
  }

  /** The payload pointer kpatch_shadow_get hands out for an entry (shadow.c:164-167). */
  function Handle(e: Entry): nat
  {
    if IsInplace(e.varword) then DataField(e.self) else e.data
  }

  /** The test shared by free and get: same owner and string-equal name (shadow.c:142, 162). */
  predicate Matches(e: Entry, obj: nat, name: string)
  {
    e.obj == obj && e.name == name
  }

  /** The blocks an entry owns: itself, its name copy and, unless in place, its payload. */
  ghost function Blocks(e: Entry): set<nat>
  {
    {e.self, NamePtr(e)} + (if IsInplace(e.varword) then {} else {e.data})
  }

  /** The kfree calls kpatch_shadow_rcu_free makes for an entry, in order (shadow.c:127-130). */
  function ReleaseOrder(e: Entry): seq<nat>
  {
    (if IsInplace(e.varword) then [] else [e.data]) + [NamePtr(e), e.self]
  }

  /** The shape alloc gives every entry it publishes. */
  ghost predicate WellFormed(e: Entry)
  {
    && e.self > 0
    && NamePtr(e) != e.self
    && e.varword % 4 == (if IsInplace(e.varword) then 1 else 0)
    && (!IsInplace(e.varword) ==> e.data != e.self && e.data != NamePtr(e))
  }

  /**
   * The deferred release frees each block of the entry exactly once, and
   * nothing else; an in-place payload gets no kfree of its own, and the
   * entry, whose fields the release reads, goes last.
   */
  lemma ReleaseFreesEachBlockOnce(e: Entry)
    requires WellFormed(e)
    ensures forall i, j :: 0 <= i < j < |ReleaseOrder(e)| ==> ReleaseOrder(e)[i] != ReleaseOrder(e)[j]
    ensures forall x :: x in ReleaseOrder(e) <==> x in Blocks(e)
    ensures IsInplace(e.varword) ==> |ReleaseOrder(e)| == 2
    ensures ReleaseOrder(e)[|ReleaseOrder(e)| - 1] == e.self
  {
  }

  // ---------------------------------------------------------------------------
  // One bucket: search, lookup and unlink as pure functions
  // ---------------------------------------------------------------------------

  /** The position of the first entry matching (obj, name), walking from the bucket head. */
  function Find(s: seq<Entry>, obj: nat, name: string): (r: Option<nat>)
    ensures r.Some? ==> r.value < |s| && Matches(s[r.value], obj, name)
    ensures r.Some? ==> forall j :: 0 <= j < r.value ==> !Matches(s[j], obj, name)
    ensures r.None? <==> forall j :: 0 <= j < |s| ==> !Matches(s[j], obj, name)
  {
    if s == [] then None
    else if Matches(s[0], obj, name) then Some(0)
    else match Find(s[1..], obj, name)
      case None => None
      case Some(k) => Some(k + 1)
  }

  /** The walk stops at i when i matches and nothing before it does. */
  lemma FindFirstMatch(s: seq<Entry>, obj: nat, name: string, i: nat)
    requires i < |s| && Matches(s[i], obj, name)
    requires forall j :: 0 <= j < i ==> !Matches(s[j], obj, name)
    ensures Find(s, obj, name) == Some(i)
  {
  }

  /** What kpatch_shadow_get returns when walking bucket `s`: the first match's payload, or NULL. */
  function Lookup(s: seq<Entry>, obj: nat, name: string): nat
  {
    match Find(s, obj, name)
    case None => 0
    case Some(i) => Handle(s[i])
  }

  /** The bucket after kpatch_shadow_free: the first match unlinked, or unchanged. */
  function Remove(s: seq<Entry>, obj: nat, name: string): seq<Entry>
  {
    match Find(s, obj, name)
    case None => s
    case Some(i) => s[..i] + s[i + 1..]
  }

  /** The entry kpatch_shadow_free hands to call_rcu: the first match, if any. */
  function Removed(s: seq<Entry>, obj: nat, name: string): seq<Entry>
  {
    match Find(s, obj, name)
    case None => []
    case Some(i) => [s[i]]
  }

  /** Searching a bucket whose new head is `e`. */
  lemma {:induction false} FindCons(e: Entry, s: seq<Entry>, obj: nat, name: string)
    ensures Find([e] + s, obj, name) ==
            if Matches(e, obj, name) then Some(0)
            else match Find(s, obj, name) case None => None case Some(k) => Some(k + 1)
  {
    assert ([e] + s)[1..] == s;
  }

  /** After alloc links `e` at the head, get finds exactly `e`'s payload. */
  lemma LookupAfterInsert(e: Entry, s: seq<Entry>)
    ensures Lookup([e] + s, e.obj, e.name) == Handle(e)
  {
    FindCons(e, s, e.obj, e.name);
  }

  /** Linking `e` does not change what any other key looks up. */
  lemma LookupOtherAfterInsert(e: Entry, s: seq<Entry>, obj: nat, name: string)
    requires !Matches(e, obj, name)
    ensures Lookup([e] + s, obj, name) == Lookup(s, obj, name)
    ensures Remove([e] + s, obj, name) == [e] + Remove(s, obj, name)
  {
    FindCons(e, s, obj, name);
    match Find(s, obj, name)
    case None =>
    case Some(k) =>
      assert ([e] + s)[..k + 1] + ([e] + s)[k + 2..] == [e] + (s[..k] + s[k + 1..]);
  }

  /** Free undoes alloc: unlinking the new head gives the old bucket back. */
  lemma RemoveAfterInsert(e: Entry, s: seq<Entry>)
    ensures Remove([e] + s, e.obj, e.name) == s
    ensures Removed([e] + s, e.obj, e.name) == [e]
  {
    FindCons(e, s, e.obj, e.name);
    assert ([e] + s)[..0] + ([e] + s)[1..] == s;
  }

  /** Free with no match changes nothing, so a second free of a key allocated once is a no-op. */
  lemma SecondFreeIsNoop(e: Entry, s: seq<Entry>)
    requires Find(s, e.obj, e.name).None?
    ensures Remove(Remove([e] + s, e.obj, e.name), e.obj, e.name) == Remove([e] + s, e.obj, e.name)
    ensures Removed(Remove([e] + s, e.obj, e.name), e.obj, e.name) == []
    ensures Lookup(Remove([e] + s, e.obj, e.name), e.obj, e.name) == 0
  {
    RemoveAfterInsert(e, s);
  }

  /** Free of one key leaves every other key's lookup as it was. */
  lemma {:induction false} LookupOtherAfterRemove(s: seq<Entry>, obj: nat, name: string, obj': nat, name': string)
    requires obj != obj' || name != name'
    ensures Lookup(Remove(s, obj, name), obj', name') == Lookup(s, obj', name')
  {
    if s != [] {
      var e, t := s[0], s[1..];
      assert s == [e] + t;
      if Matches(e, obj, name) {
        RemoveAfterInsert(e, t);
        LookupOtherAfterInsert(e, t, obj', name');
      } else {
        LookupOtherAfterInsert(e, t, obj, name);
        LookupOtherAfterRemove(t, obj, name, obj', name');
        FindCons(e, Remove(t, obj, name), obj', name');
        FindCons(e, t, obj', name');
      }
    }
  }

  /** Free unlinks exactly one entry, the first match, and keeps the others in order. */
  lemma RemoveTakesOutFirstMatch(s: seq<Entry>, obj: nat, name: string, i: nat)
    requires Find(s, obj, name) == Some(i)
    ensures |Remove(s, obj, name)| == |s| - 1
    ensures Removed(s, obj, name) == [s[i]]
    ensures multiset(Remove(s, obj, name)) + multiset{s[i]} == multiset(s)
    ensures forall j :: 0 <= j < i ==> Remove(s, obj, name)[j] == s[j]
    ensures forall j :: i <= j < |s| - 1 ==> Remove(s, obj, name)[j] == s[j + 1]
  {
    assert s == s[..i] + [s[i]] + s[i + 1..];
  }

  /**
   * Duplicates stack: with two entries for one key, get and free act on the
   * newer one, and after that free get sees the older one.
   */
  lemma DuplicatesStack(older: Entry, newer: Entry, s: seq<Entry>)
    requires Matches(older, newer.obj, newer.name)
    ensures Lookup([newer, older] + s, newer.obj, newer.name) == Handle(newer)
    ensures Remove([newer, older] + s, newer.obj, newer.name) == [older] + s
    ensures Lookup(Remove([newer, older] + s, newer.obj, newer.name), newer.obj, newer.name) == Handle(older)
  {
    assert [newer, older] + s == [newer] + ([older] + s);
    RemoveAfterInsert(newer, [older] + s);
    LookupAfterInsert(newer, [older] + s);
    LookupAfterInsert(older, s);
  }

  /** Get returns NULL exactly when no entry of the bucket matches, since no payload pointer is NULL. */
  lemma LookupNullIffAbsent(s: seq<Entry>, obj: nat, name: string)
    requires forall j :: 0 <= j < |s| ==> Handle(s[j]) != 0
    ensures Lookup(s, obj, name) == 0 <==> forall j :: 0 <= j < |s| ==> !Matches(s[j], obj, name)
  {
  }

  // ---------------------------------------------------------------------------
  // The allocator: kmalloc, kstrdup and kfree over a set of live blocks
  // ---------------------------------------------------------------------------

  /**
   * A slab allocator.  `live` maps each allocated block to its size, `brk` is
   * the next free address, `faults` is the injected failure schedule (the k-th
   * allocation from now fails iff faults[k] is true; past its end every
   * allocation succeeds) and `frees` records every kfree of a non-NULL block.
   */
  class Slab {
    var live: map<nat, nat>
    var brk: nat
    var faults: seq<bool>
    var frees: seq<nat>

    ghost predicate Valid()
      reads this
    {
      && brk > 0 && brk % KmallocAlign == 0
      && forall a :: a in live ==> 0 < a < brk && a % KmallocAlign == 0
    }

    constructor (faults: seq<bool>)
      ensures Valid()
      ensures live == map[] && this.faults == faults && frees == []
    {
      live := map[];
      brk := KmallocAlign;
      this.faults := faults;
      frees := [];
    }

    /** Whether the next allocation fails. */
    predicate NextFails()
      reads this
    {
      |faults| > 0 && faults[0]
    }

    /** kmalloc(size): a fresh aligned block of `size` bytes, or NULL when the schedule says so. */
    method Kmalloc(size: nat) returns (p: nat)
      requires Valid()
      modifies this
      ensures Valid()
      ensures faults == Drop(old(faults), 1) && frees == old(frees)
      ensures p == 0 <==> old(NextFails())
      ensures p == 0 ==> live == old(live)
      ensures p != 0 ==> p !in old(live) && p % KmallocAlign == 0 && live == old(live)[p := size]
    {
      if NextFails() {
        p := 0;
      } else {
        p := brk;
        live := live[p := size];
        brk := brk + KmallocAlign * (size / KmallocAlign + 1);
      }
      faults := Drop(faults, 1);
    }

    /** kstrdup(s): a fresh block of |s| + 1 bytes holding a copy of `s`, or NULL. */
    method Kstrdup(s: string) returns (p: nat)
      requires Valid()
      modifies this
      ensures Valid()
      ensures faults == Drop(old(faults), 1) && frees == old(frees)
      ensures p == 0 <==> old(NextFails())
      ensures p == 0 ==> live == old(live)
      ensures p != 0 ==> p !in old(live) && p % KmallocAlign == 0 && live == old(live)[p := |s| + 1]
    {
      p := Kmalloc(|s| + 1);
    }

    /** kfree(p): releases a live block; kfree(NULL) does nothing. */
    method Kfree(p: nat)
      requires Valid()
      requires p == 0 || p in live
      modifies this
      ensures Valid()
      ensures live == old(live) - {p} && faults == old(faults)
      ensures frees == old(frees) + (if p == 0 then [] else [p])
    {
      if p != 0 {
        live := live - {p};
        frees := frees + [p];
      }
    }
  }

  /** The schedule after `n` allocations. */
  function Drop(faults: seq<bool>, n: nat): (r: seq<bool>)
    ensures |r| == if n <= |faults| then |faults| - n else 0
  {
    if n <= |faults| then faults[n..] else []
  }

  /** Whether the k-th allocation from now fails. */
  predicate Fault(faults: seq<bool>, k: nat)
  {
    k < |faults| && faults[k]
  }

  /** The live blocks after alloc added entry `e` with a name of `nameLen` characters and a `size`-byte payload. */
  ghost function WithEntry(live: map<nat, nat>, e: Entry, nameLen: nat, size: nat): map<nat, nat>
  {
    var l := live[e.self := EntrySize][NamePtr(e) := nameLen + 1];
    if IsInplace(e.varword) then l else l[e.data := size]
  }

  /** Allocating after `m` allocations is allocating m + k from now. */
  lemma FaultAfterDrop(faults: seq<bool>, m: nat, k: nat)
    ensures Fault(Drop(faults, m), k) == Fault(faults, m + k)
    ensures Drop(Drop(faults, m), k) == Drop(faults, m + k)
  {
  }

  /** How many allocations kpatch_shadow_alloc attempts under `faults` (it stops at the first failure). */
  function AllocAttempts(faults: seq<bool>, size: nat): nat
  {
    if Fault(faults, 0) then 1
    else if Fault(faults, 1) then 2
    else if size <= PointerSize then 2
    else 3
  }

  /** Whether one of alloc's allocations fails under `faults`: the entry, the name copy, or a large payload. */
  predicate AllocFails(faults: seq<bool>, size: nat)
  {
    Fault(faults, 0) || Fault(faults, 1) || (size > PointerSize && Fault(faults, 2))
  }

  // ---------------------------------------------------------------------------
  // Ownership: whose every block is, and where every entry is
  // ---------------------------------------------------------------------------

  /** Where an entry is: linked into a bucket, or unlinked and waiting for its release. */
  datatype Loc = Linked(bucket: nat) | Deferred

  ghost predicate OwnedBy(x: nat, self: nat, live: map<nat, nat>, owner: map<nat, nat>)
  {
    x in live && x in owner && owner[x] == self
  }

  /** Every block of `e` is live and recorded as `e`'s, and `e` has a location. */
  ghost predicate Owned(e: Entry, live: map<nat, nat>, owner: map<nat, nat>, where: map<nat, Loc>)
  {
    && WellFormed(e)
    && e.self in where
    && OwnedBy(e.self, e.self, live, owner)
    && OwnedBy(NamePtr(e), e.self, live, owner)
    && (!IsInplace(e.varword) ==> OwnedBy(e.data, e.self, live, owner))
  }

  /**
   * The store's invariant over its buckets B, its pending releases P and the
   * allocator's live blocks: every entry owns its blocks, sits in the bucket of
   * its owner's hash, and appears only once in the whole store.
   */
  ghost predicate Inv(B: seq<seq<Entry>>, P: seq<Entry>, live: map<nat, nat>, owner: map<nat, nat>, where: map<nat, Loc>)
  {
    && |B| == HashSize
    && owner.Keys <= live.Keys
    && (forall b, i :: 0 <= b < |B| && 0 <= i < |B[b]| ==>
          Owned(B[b][i], live, owner, where) && where[B[b][i].self] == Linked(b) && BucketOf(B[b][i].obj) == b)
    && (forall b, i, j :: 0 <= b < |B| && 0 <= i < j < |B[b]| ==> B[b][i].self != B[b][j].self)
    && (forall i :: 0 <= i < |P| ==> Owned(P[i], live, owner, where) && where[P[i].self] == Deferred)
    && (forall i, j :: 0 <= i < j < |P| ==> P[i].self != P[j].self)
  }

  /** The owner map once `e`'s blocks are recorded as `e`'s. */
  ghost function Claim(owner: map<nat, nat>, e: Entry): map<nat, nat>
  {
    var o := owner[e.self := e.self][NamePtr(e) := e.self];
    if IsInplace(e.varword) then o else o[e.data := e.self]
  }

  /** Linking a fresh entry at the head of its bucket keeps the invariant. */
  lemma InvLink(B: seq<seq<Entry>>, P: seq<Entry>, live: map<nat, nat>, owner: map<nat, nat>, where: map<nat, Loc>,
                e: Entry, live': map<nat, nat>)
    requires Inv(B, P, live, owner, where)
    requires WellFormed(e)
    requires forall x :: x in Blocks(e) ==> x !in live && x in live'
    requires live.Keys <= live'.Keys
    ensures Inv(B[BucketOf(e.obj) := [e] + B[BucketOf(e.obj)]], P, live', Claim(owner, e),
                where[e.self := Linked(BucketOf(e.obj))])
  {
    var c := BucketOf(e.obj);
    var B': seq<seq<Entry>> := B[c := [e] + B[c]];
    var owner' := Claim(owner, e);
    var where' := where[e.self := Linked(c)];
    forall f | Owned(f, live, owner, where)
      ensures Owned(f, live', owner', where') && where'[f.self] == where[f.self]
    {
      assert f.self != e.self;
      forall x | x in Blocks(f) ensures x !in Blocks(e) {
      }
    }
    assert Owned(e, live', owner', where');
    forall b, i | 0 <= b < |B'| && 0 <= i < |B'[b]|
      ensures Owned(B'[b][i], live', owner', where') && where'[B'[b][i].self] == Linked(b) && BucketOf(B'[b][i].obj) == b
    {
      if b == c && i > 0 {
        assert B'[b][i] == B[c][i - 1];
      }
    }
    forall b, i, j | 0 <= b < |B'| && 0 <= i < j < |B'[b]|
      ensures B'[b][i].self != B'[b][j].self
    {
      if b == c {
        assert B'[b][j] == B[c][j - 1];
        if i == 0 {
          assert B[c][j - 1].self in live;
        } else {
          assert B'[b][i] == B[c][i - 1];
        }
      }
    }
  }

  /** Unlinking an entry and queueing it for release keeps the invariant. */
  lemma InvUnlink(B: seq<seq<Entry>>, P: seq<Entry>, live: map<nat, nat>, owner: map<nat, nat>, where: map<nat, Loc>,
                  b: nat, i: nat)
    requires Inv(B, P, live, owner, where)
    requires b < |B| && i < |B[b]|
    ensures Inv(B[b := B[b][..i] + B[b][i + 1..]], P + [B[b][i]], live, owner, where[B[b][i].self := Deferred])
  {
    var e := B[b][i];
    var B': seq<seq<Entry>> := B[b := B[b][..i] + B[b][i + 1..]];
    var P' := P + [e];
    var where' := where[e.self := Deferred];
    forall c, k | 0 <= c < |B'| && 0 <= k < |B'[c]|
      ensures B'[c][k].self != e.self && B'[c][k] == (if c == b && k >= i then B[c][k + 1] else B[c][k])
    {
      if c == b && k >= i {
        assert B'[c][k] == B[c][k + 1];
      }
    }
    forall f | Owned(f, live, owner, where) && f.self != e.self
      ensures Owned(f, live, owner, where') && where'[f.self] == where[f.self]
    {
    }
    forall k | 0 <= k < |P'| ensures Owned(P'[k], live, owner, where') && where'[P'[k].self] == Deferred {
      if k < |P| {
        assert P'[k] == P[k];
      }
    }
    forall k, l | 0 <= k < l < |P'| ensures P'[k].self != P'[l].self {
      assert P'[k] == P[k];
    }
    forall c, k, l | 0 <= c < |B'| && 0 <= k < l < |B'[c]| ensures B'[c][k].self != B'[c][l].self {
    }
  }

  /** Releasing the oldest pending entry's blocks keeps the invariant for everything else. */
  lemma InvRelease(B: seq<seq<Entry>>, P: seq<Entry>, live: map<nat, nat>, owner: map<nat, nat>, where: map<nat, Loc>)
    requires Inv(B, P, live, owner, where)
    requires P != []
    ensures Inv(B, P[1..], live - Blocks(P[0]), owner - Blocks(P[0]), where - {P[0].self})
  {
    var e := P[0];
    var live', owner', where' := live - Blocks(e), owner - Blocks(e), where - {e.self};
    forall f | Owned(f, live, owner, where) && f.self != e.self
      ensures Owned(f, live', owner', where')
    {
      forall x | x in Blocks(f) ensures x !in Blocks(e) {
        assert owner[x] == f.self;
      }
    }
    forall b, i | 0 <= b < |B| && 0 <= i < |B[b]| ensures B[b][i].self != e.self {
    }
    forall i | 0 <= i < |P| - 1 ensures P[1..][i] == P[i + 1] && P[i + 1].self != e.self {
    }
  }

  /** With every live address non-zero, get's NULL means no entry in the whole table matches. */
  lemma InvLookupNullIffAbsent(B: seq<seq<Entry>>, P: seq<Entry>, live: map<nat, nat>, owner: map<nat, nat>,
                               where: map<nat, Loc>, obj: nat, name: string)
    requires Inv(B, P, live, owner, where)
    requires forall a :: a in live ==> a > 0
    ensures Lookup(B[BucketOf(obj)], obj, name) == 0 <==>
            !exists b, i :: 0 <= b < |B| && 0 <= i < |B[b]| && Matches(B[b][i], obj, name)
  {
    var s := B[BucketOf(obj)];
    forall j | 0 <= j < |s| ensures Handle(s[j]) != 0 {
      assert Owned(s[j], live, owner, where);
    }
    LookupNullIffAbsent(s, obj, name);
  }

  /** The blocks of every entry in `s`. */
  ghost function Released(s: seq<Entry>): set<nat>
  {
    if s == [] then {} else Released(s[..|s| - 1]) + Blocks(s[|s| - 1])
  }

  /** The kfree calls the release callbacks of the entries in `s` make, in queue order. */
  function ReleaseTrace(s: seq<Entry>): seq<nat>
  {
    if s == [] then [] else ReleaseTrace(s[..|s| - 1]) + ReleaseOrder(s[|s| - 1])
  }

  /** Releasing one more entry of the queue frees its blocks and appends its kfree calls. */
  lemma ReleasedSnoc(P: seq<Entry>, k: nat, live: map<nat, nat>, frees: seq<nat>)
    requires k < |P|
    ensures live - Released(P[..k]) - Blocks(P[k]) == live - Released(P[..k + 1])
    ensures frees + ReleaseTrace(P[..k]) + ReleaseOrder(P[k]) == frees + ReleaseTrace(P[..k + 1])
  {
    assert P[..k + 1][..k] == P[..k];
  }

  // ---------------------------------------------------------------------------
  // The store
  // ---------------------------------------------------------------------------

  /**
   * The shadow-variable store: the hash table kpatch_shadow_hash (one sequence
   * of entries per bucket, head first), the callbacks call_rcu has queued, and
   * the allocator.  `owner` and `where` are ghost bookkeeping for the invariant.
   */
  class Store {
    const heap: Slab
    const table: array<seq<Entry>>
    var pending: seq<Entry>
    ghost var owner: map<nat, nat>
    ghost var where: map<nat, Loc>

    ghost predicate Valid()
      reads this, heap, table
    {
      && heap.Valid()
      && table.Length == HashSize
      && Inv(table[..], pending, heap.live, owner, where)
    }

    /** DEFINE_HASHTABLE: every bucket empty, nothing pending. */
    constructor (heap: Slab)
      requires heap.Valid()
      ensures Valid() && this.heap == heap && fresh(table)
      ensures forall b :: 0 <= b < HashSize ==> table[b] == []
      ensures pending == []
    {
      this.heap := heap;
      table := new seq<Entry>[HashSize](_ => []);
      pending := [];
      owner := map[];
      where := map[];
    }

    /** What get(obj, name) returns in the current state. */
    ghost function Attached(obj: nat, name: string): nat
      reads this, table
      requires table.Length == HashSize
    {
      Lookup(table[BucketOf(obj)], obj, name)
    }

    /** Whether some entry anywhere in the table has owner `obj` and name `name`. */
    ghost predicate Present(obj: nat, name: string)
      reads this, table
    {
      exists b, i :: 0 <= b < table.Length && 0 <= i < |table[b]| && Matches(table[b][i], obj, name)
    }

    /**
     * kpatch_shadow_alloc: builds a new entry (three fallible allocations with
     * rollback) and links it at the head of the owner's bucket.  Returns the
     * payload pointer, or NULL.
     */
    method Alloc(obj: nat, name: string, size: nat) returns (p: nat, ghost e: Entry, ghost freed: seq<nat>)
      requires Valid()
      modifies this, table, heap
      ensures Valid()
      ensures pending == old(pending)
      ensures heap.faults == Drop(old(heap.faults), AllocAttempts(old(heap.faults), size))
      ensures p == 0 <==> AllocFails(old(heap.faults), size)
      // on failure: every block allocated so far is freed again, and the table is untouched
      ensures p == 0 ==> table[..] == old(table[..]) && heap.live == old(heap.live)
      ensures p == 0 ==> heap.frees == old(heap.frees) + freed
      ensures p == 0 ==> |freed| == AllocAttempts(old(heap.faults), size) - 1
      ensures forall x :: x in freed ==> x !in old(heap.live)
      // on success: a new entry for (obj, name) heads its bucket and `p` is its payload pointer
      ensures p != 0 ==> && Matches(e, obj, name) && p == Handle(e)
                         && table[..] == old(table[..])[BucketOf(obj) := [e] + old(table[BucketOf(obj)])]
                         && heap.frees == old(heap.frees)
                         && heap.live == WithEntry(old(heap.live), e, |name|, size)
                         && (forall x :: x in Blocks(e) ==> x !in old(heap.live))
                         && (IsInplace(e.varword) <==> size <= PointerSize)
                         && (size <= PointerSize ==> p == DataField(e.self) && e.data == p)
                         && (size > PointerSize ==> p == e.data)
    {
      ghost var L := heap.live;
      var ok, entry;
      ok, entry, freed := NewEntry(obj, name, size);
      e := entry;
      if !ok {
        return 0, e, freed;
      }
      var b := BucketOf(obj);
      InvLink(table[..], pending, L, owner, where, entry, heap.live);
      table[b] := [entry] + table[b];
      owner := Claim(owner, entry);
      where := where[entry.self := Linked(b)];
      p := entry.data;
    }

    /**
     * Lines 89-111 of kpatch_shadow_alloc: allocate the entry, copy the name,
     * then either mark the entry in place (the payload pointer is the entry's
     * own data field) or allocate a separate payload of `size` bytes.  Each
     * failure frees what was allocated before it.
     */
    method NewEntry(obj: nat, name: string, size: nat) returns (ok: bool, e: Entry, ghost freed: seq<nat>)
      requires heap.Valid()
      modifies heap
      ensures heap.Valid()
      ensures heap.faults == Drop(old(heap.faults), AllocAttempts(old(heap.faults), size))
      ensures ok <==> !AllocFails(old(heap.faults), size)
      ensures !ok ==> heap.live == old(heap.live)
      ensures !ok ==> heap.frees == old(heap.frees) + freed
      ensures !ok ==> |freed| == AllocAttempts(old(heap.faults), size) - 1
      ensures forall x :: x in freed ==> x !in old(heap.live)
      ensures ok ==> && WellFormed(e) && Matches(e, obj, name)
                     && heap.frees == old(heap.frees)
                     && heap.live == WithEntry(old(heap.live), e, |name|, size)
                     && (forall x :: x in Blocks(e) ==> x !in old(heap.live))
                     && (IsInplace(e.varword) <==> size <= PointerSize)
                     && (size <= PointerSize ==> e.data == DataField(e.self))
                     && Handle(e) == e.data && e.data != 0
    {
      ghost var F := heap.faults;
      FaultAfterDrop(F, 1, 0);
      FaultAfterDrop(F, 1, 1);
      FaultAfterDrop(F, 2, 0);
      e, freed := Entry(0, obj, 0, name, 0), [];
      var shadow := heap.Kmalloc(EntrySize);
      if shadow == 0 {
        return false, e, freed;
      }
      var v := heap.Kstrdup(name);
      if v == 0 {
        heap.Kfree(shadow);
        return false, e, [shadow];
      }
      KmallocAlignedToFour(v);
      TaggedNameRoundTrip(v);
      var varword, data;
      ok, varword, data := NewPayload(shadow, v, size);
      if !ok {
        return false, e, [v, shadow];
      }
      e := Entry(shadow, obj, varword, name, data);
    }

    /**
     * Lines 101-111 of kpatch_shadow_alloc, for the entry at `shadow` whose name
     * copy is at `v`: a payload of at most PointerSize bytes is the entry's own
     * data field and the entry is tagged in place; a larger one is a separate
     * block, and when that allocation fails the name copy and the entry are freed.
     */
    method NewPayload(shadow: nat, v: nat, size: nat) returns (ok: bool, varword: nat, data: nat)
      requires heap.Valid()
      requires shadow in heap.live && v in heap.live && shadow != v
      modifies heap
      ensures heap.Valid()
      ensures ok <==> !(size > PointerSize && old(heap.NextFails()))
      ensures heap.faults == if size <= PointerSize then old(heap.faults) else Drop(old(heap.faults), 1)
      ensures !ok ==> heap.live == old(heap.live) - {v, shadow} && heap.frees == old(heap.frees) + [v, shadow]
      ensures ok ==> heap.frees == old(heap.frees) && data != 0
      ensures ok && size <= PointerSize ==>
                varword == SetInplace(v) && data == DataField(shadow) && heap.live == old(heap.live)
      ensures ok && size > PointerSize ==>
                varword == v && data !in old(heap.live) && heap.live == old(heap.live)[data := size]
    {
      varword := v;
      if size <= PointerSize {
        data := DataField(shadow);
        varword := SetInplace(varword);
        ok := true;
      } else {
        data := heap.Kmalloc(size);
        if data == 0 {
          heap.Kfree(v);
          heap.Kfree(shadow);
          return false, varword, data;
        }
        ok := true;
      }
    }

    /**
     * kpatch_shadow_get: walks the owner's bucket from its head and returns the
     * payload pointer of the first entry with the same owner and name, or NULL.
     */
    method Get(obj: nat, name: string) returns (p: nat)
      requires Valid()
      ensures p == Attached(obj, name)
      ensures p == 0 <==> !Present(obj, name)
    {
      InvLookupNullIffAbsent(table[..], pending, heap.live, owner, where, obj, name);
      var b := BucketOf(obj);
      var i := 0;
      while i < |table[b]|
        invariant 0 <= i <= |table[b]|
        invariant forall j :: 0 <= j < i ==> !Matches(table[b][j], obj, name)
      {
        var e := table[b][i];
        if e.obj == obj && e.name == name {
          if IsInplace(e.varword) {
            return DataField(e.self);
          }
          return e.data;
        }
        i := i + 1;
      }
      return 0;
    }

    /**
     * kpatch_shadow_free: unlinks the first entry with the same owner and name
     * and queues its release; with no such entry it does nothing.
     */
    method Free(obj: nat, name: string)
      requires Valid()
      modifies this, table
      ensures Valid()
      ensures table[..] == old(table[..])[BucketOf(obj) := Remove(old(table[BucketOf(obj)]), obj, name)]
      ensures pending == old(pending) + Removed(old(table[BucketOf(obj)]), obj, name)
    {
      var b := BucketOf(obj);
      var s := table[b];
      var i := 0;
      while i < |s|
        invariant 0 <= i <= |s|
        invariant forall j :: 0 <= j < i ==> !Matches(s[j], obj, name)
      {
        if s[i].obj == obj && s[i].name == name {
          break;
        }
        i := i + 1;
      }
      if i < |s| {
        var e := s[i];
        FindFirstMatch(s, obj, name, i);
        InvUnlink(table[..], pending, heap.live, owner, where, b, i);
        ghost var T := table[..];
        table[b] := s[..i] + s[i + 1..];
        assert table[..] == T[b := s[..i] + s[i + 1..]];
        pending := pending + [e];
        where := where[e.self := Deferred];
      } else {
        assert table[..] == old(table[..])[b := s];
      }
    }

    /**
     * kpatch_shadow_rcu_free for one unlinked entry: frees the payload unless it
     * is in place, then the name copy (through the masked pointer), then the entry.
     */
    method RcuFree(e: Entry)
      requires heap.Valid() && WellFormed(e)
      requires forall x :: x in Blocks(e) ==> x in heap.live
      modifies heap
      ensures heap.Valid()
      ensures heap.live == old(heap.live) - Blocks(e)
      ensures heap.frees == old(heap.frees) + ReleaseOrder(e)
      ensures heap.faults == old(heap.faults)
    {
      if !IsInplace(e.varword) {
        heap.Kfree(e.data);
      }
      heap.Kfree(NamePtr(e));
      heap.Kfree(e.self);
    }

    /** The end of a grace period: every callback call_rcu queued runs, oldest first. */
    method GracePeriod()
      requires Valid()
      modifies this, heap
      ensures Valid()
      ensures pending == []
      ensures heap.live == old(heap.live) - Released(old(pending))
      ensures heap.frees == old(heap.frees) + ReleaseTrace(old(pending))
      ensures heap.faults == old(heap.faults)
    {
      ghost var P := pending;
      ghost var k := 0;
      while pending != []
        invariant Valid()
        invariant 0 <= k <= |P| && pending == P[k..]
        invariant heap.live == old(heap.live) - Released(P[..k])
        invariant heap.frees == old(heap.frees) + ReleaseTrace(P[..k])
        invariant heap.faults == old(heap.faults)
        decreases |pending|
      {
        var e := pending[0];
        assert e == P[k] && pending[1..] == P[k + 1..];
        assert Owned(e, heap.live, owner, where);
        InvRelease(table[..], pending, heap.live, owner, where);
        ReleasedSnoc(P, k, old(heap.live), old(heap.frees));
        RcuFree(e);
        pending := pending[1..];
        owner := owner - Blocks(e);
        where := where - {e.self};
        k := k + 1;
      }
      assert P[..k] == P;
    }
  }
}
