/** Circular doubly linked lists. */
module Ring {
  class ListEntry {
    var prev: ListEntry?
    var next: ListEntry?

    constructor ()
    {
      prev, next := null, null;
    }
  }

  function Succ(i: nat, n: nat): (r: nat)
    requires i < n
    ensures r < n
  {
    if i + 1 == n then 0 else i + 1
  }

  ghost predicate Distinct(s: seq<ListEntry>) {
    forall i, j | 0 <= i < j < |s| :: s[i] != s[j]
  }

  ghost predicate Linked(a: ListEntry, b: ListEntry)
    reads a, b
  {
    a.next == b && b.prev == a
  }

  /** The entries of s form a ring in this order. */
  ghost predicate Ring(s: seq<ListEntry>)
    reads s
  {
    && s != [] && Distinct(s)
    && forall i :: 0 <= i < |s| ==> Linked(s[i], s[Succ(i, |s|)])
  }

  method Init(elm: ListEntry)
    modifies elm
    ensures Ring([elm])
  {
    elm.prev, elm.next := elm, elm;
  }

  /** Insert a new entry between two known consecutive entries. */
  method Insert(elm: ListEntry, prev: ListEntry, next: ListEntry, ghost s: seq<ListEntry>, ghost i: nat)
    requires Ring(s) && i < |s| && prev == s[i] && next == s[Succ(i, |s|)] && elm !in s
    modifies prev`next, next`prev, elm
    ensures Ring(Inserted(s, i, elm))
  {
    prev.next := elm;
    next.prev := elm;
    elm.next := next;
    elm.prev := prev;
    ghost var t := Inserted(s, i, elm);
    forall j | 0 <= j < |t|
      ensures Linked(t[j], t[Succ(j, |t|)])
    {
      if j < i {
        assert old(Linked(s[j], s[Succ(j, |s|)]));
      } else if j > i + 1 {
        assert old(Linked(s[j - 1], s[Succ(j - 1, |s|)]));
      }
    }
  }

  /** The sequence with e behind position i. */
  function Inserted<T>(s: seq<T>, i: nat, e: T): (r: seq<T>)
    requires i < |s|
    ensures |r| == |s| + 1
  {
    s[..i + 1] + [e] + s[i + 1..]
  }

  function Pred(i: nat, n: nat): (r: nat)
    requires i < n
    ensures r < n && Succ(r, n) == i
  {
    if i == 0 then n - 1 else i - 1
  }

  function Behind(s: seq<ListEntry>, i: nat): ListEntry
    requires i < |s|
  {
    s[Succ(i, |s|)]
  }

  function Before(s: seq<ListEntry>, i: nat): ListEntry
    requires i < |s|
  {
    s[Pred(i, |s|)]
  }

  lemma Neighbours(s: seq<ListEntry>, i: nat)
    requires Ring(s) && i < |s|
    ensures s[i].next == s[Succ(i, |s|)] && s[i].prev == s[Pred(i, |s|)]
  {
    assert Linked(s[i], s[Succ(i, |s|)]);
    assert Linked(s[Pred(i, |s|)], s[i]);
  }

  /** The new entry comes right behind listelm. */
  method AddAfter(listelm: ListEntry, elm: ListEntry, ghost s: seq<ListEntry>, ghost i: nat)
    requires Ring(s) && i < |s| && listelm == s[i] && elm !in s
    modifies listelm`next, Behind(s, i)`prev, elm
    ensures Ring(Inserted(s, i, elm))
  {
    Neighbours(s, i);
    Insert(elm, listelm, listelm.next, s, i);
  }

  /** The new entry comes right before listelm: at the end of the ring when listelm is its head. */
  method AddBefore(listelm: ListEntry, elm: ListEntry, ghost s: seq<ListEntry>, ghost i: nat)
    requires Ring(s) && i < |s| && listelm == s[i] && elm !in s
    modifies Before(s, i)`next, listelm`prev, elm
    ensures Ring(Inserted(s, Pred(i, |s|), elm))
  {
    Neighbours(s, i);
    Insert(elm, listelm.prev, listelm, s, Pred(i, |s|));
  }

  method Add(listelm: ListEntry, elm: ListEntry, ghost s: seq<ListEntry>, ghost i: nat)
    requires Ring(s) && i < |s| && listelm == s[i] && elm !in s
    modifies listelm`next, Behind(s, i)`prev, elm
    ensures Ring(Inserted(s, i, elm))
  {
    AddAfter(listelm, elm, s, i);
  }

  /** Make the neighbours of an entry point to each other. */
  method Unlink(prev: ListEntry, next: ListEntry, ghost s: seq<ListEntry>, ghost i: nat)
    requires Ring(s) && i < |s| && prev == s[Pred(i, |s|)] && next == s[Succ(i, |s|)]
    modifies prev`next, next`prev
    ensures Ring(if |s| == 1 then s else Removed(s, i))
  {
    prev.next := next;
    next.prev := prev;
    if |s| > 1 {
      ghost var t := Removed(s, i);
      forall j | 0 <= j < |t|
        ensures Linked(t[j], t[Succ(j, |t|)])
      {
        var k := if j < i then j else j + 1;
        assert old(Linked(s[k], s[Succ(k, |s|)]));
      }
    }
  }

  function Removed<T>(s: seq<T>, i: nat): (r: seq<T>)
    requires i < |s|
    ensures |r| == |s| - 1
  {
    s[..i] + s[i + 1..]
  }

  /** The entry keeps its links, unless it was alone. */
  method Del(listelm: ListEntry, ghost s: seq<ListEntry>, ghost i: nat)
    requires Ring(s) && i < |s| && listelm == s[i]
    modifies Before(s, i)`next, Behind(s, i)`prev
    ensures Ring(if |s| == 1 then s else Removed(s, i))
    ensures listelm.next == old(listelm.next) && listelm.prev == old(listelm.prev)
  {
    Neighbours(s, i);
    Unlink(listelm.prev, listelm.next, s, i);
  }

  /** The entry becomes a ring of its own. */
  method DelInit(listelm: ListEntry, ghost s: seq<ListEntry>, ghost i: nat)
    requires Ring(s) && i < |s| && listelm == s[i]
    modifies Before(s, i)`next, Behind(s, i)`prev, listelm
    ensures Ring([listelm]) && (|s| > 1 ==> Ring(Removed(s, i)))
  {
    hide Ring, Removed;
    NotRemoved(s, i);
    Del(listelm, s, i);
    assert |s| > 1 ==> Ring(Removed(s, i));
    Init(listelm);
  }

  lemma NotRemoved(s: seq<ListEntry>, i: nat)
    requires Ring(s) && i < |s|
    ensures s[i] !in Removed(s, i)
  {}

  method Empty(list: ListEntry, ghost s: seq<ListEntry>, ghost i: nat) returns (r: bool)
    requires Ring(s) && i < |s| && list == s[i]
    ensures r <==> |s| == 1
  {
    Neighbours(s, i);
    r := list.next == list;
  }

  /** Deleting the added entry undoes its addition, and the other way round. */
  lemma AddDel<T>(s: seq<T>, i: nat, e: T)
    requires i < |s|
    ensures Inserted(s, i, e)[i + 1] == e && Removed(Inserted(s, i, e), i + 1) == s
    ensures i > 0 ==> Inserted(Removed(s, i), i - 1, s[i]) == s
  {}

  /** On the pointers: after an addition and the deletion of the new entry every link of the ring is what it was. */
  method AddThenDel(listelm: ListEntry, elm: ListEntry, before: bool, ghost s: seq<ListEntry>, ghost i: nat)
    requires Ring(s) && i < |s| && listelm == s[i] && elm !in s
    modifies s, elm
    ensures Ring(s)
    ensures forall x <- s :: x.next == old(x.next) && x.prev == old(x.prev)
  {
    hide Ring, Inserted;
    ghost var j := if before then Pred(i, |s|) else i;
    AllNeighbours(s);
    AddDel(s, j, elm);
    if before {
      AddBefore(listelm, elm, s, i);
    } else {
      AddAfter(listelm, elm, s, i);
    }
    InsertedMembers(s, j, elm);
    Del(elm, Inserted(s, j, elm), j + 1);
    AllNeighbours(s);
    forall x | x in s
      ensures x.next == old(x.next) && x.prev == old(x.prev)
    {
      ghost var k :| 0 <= k < |s| && s[k] == x;
    }
  }

  lemma AllNeighbours(s: seq<ListEntry>)
    requires Ring(s)
    ensures forall k :: 0 <= k < |s| ==> s[k].next == s[Succ(k, |s|)] && s[k].prev == s[Pred(k, |s|)]
  {
    hide Ring;
    forall k | 0 <= k < |s|
      ensures s[k].next == s[Succ(k, |s|)] && s[k].prev == s[Pred(k, |s|)]
    {
      Neighbours(s, k);
    }
  }

  lemma InsertedMembers(s: seq<ListEntry>, i: nat, e: ListEntry)
    requires i < |s|
    ensures |Inserted(s, i, e)| == |s| + 1
    ensures forall x <- Inserted(s, i, e) :: x in s || x == e
    ensures Behind(Inserted(s, i, e), i + 1) in s && Before(Inserted(s, i, e), i + 1) in s
  {}

  // ---- runs ----

  datatype Op = PutBefore(at: ListEntry, e: ListEntry) | PutBehind(at: ListEntry, e: ListEntry) | Drop(e: ListEntry)

  ghost function IndexOf(s: seq<ListEntry>, x: ListEntry): (i: nat)
    requires x in s
    ensures i < |s| && s[i] == x
  {
    if s[0] == x then 0 else 1 + IndexOf(s[1..], x)
  }

  /** A new entry is not in the ring; its place, or the entry to delete, is. */
  ghost predicate Legal(s: seq<ListEntry>, op: Op) {
    if op.Drop? then op.e in s else op.at in s && op.e !in s
  }

  /** The entries in ring order after an operation; the last entry stays in its own ring. */
  ghost function Effect(s: seq<ListEntry>, op: Op): seq<ListEntry>
    requires Legal(s, op)
  {
    match op
    case PutBefore(at, e) => Inserted(s, Pred(IndexOf(s, at), |s|), e)
    case PutBehind(at, e) => Inserted(s, IndexOf(s, at), e)
    case Drop(e) => if |s| == 1 then s else Removed(s, IndexOf(s, e))
  }

  ghost predicate LegalRun(s: seq<ListEntry>, ops: seq<Op>)
    decreases |ops|
  {
    ops == [] || (Legal(s, ops[0]) && LegalRun(Effect(s, ops[0]), ops[1..]))
  }

  ghost function AfterRun(s: seq<ListEntry>, ops: seq<Op>): seq<ListEntry>
    requires LegalRun(s, ops)
    decreases |ops|
  {
    if ops == [] then s else AfterRun(Effect(s, ops[0]), ops[1..])
  }

  lemma EffectMembers(s: seq<ListEntry>, op: Op)
    requires Legal(s, op)
    ensures forall x <- Effect(s, op) :: x in s || x == op.e
  {}

  method Perform(op: Op, ghost s: seq<ListEntry>)
    requires Ring(s) && Legal(s, op)
    modifies s, op.e
    ensures Ring(Effect(s, op))
  {
    hide Ring, Inserted, Removed;
    match op
    case PutBefore(at, e) => AddBefore(at, e, s, IndexOf(s, at));
    case PutBehind(at, e) => AddAfter(at, e, s, IndexOf(s, at));
    case Drop(e) =>
      DelInit(e, s, IndexOf(s, e));
      OnlyOne(s, e);
  }

  lemma OnlyOne(s: seq<ListEntry>, e: ListEntry)
    requires e in s
    ensures |s| == 1 ==> s == [e]
    ensures |s| > 0
  {}

  /** Every sequence of list_add_before, list_add_after and list_del_init leaves a ring of the entries that the
      sequence of operations says, in that order. */
  method PerformAll(ops: seq<Op>, ghost s: seq<ListEntry>, ghost region: set<ListEntry>)
    requires Ring(s) && LegalRun(s, ops)
    requires (forall x <- s :: x in region) && (forall op <- ops :: op.e in region)
    modifies region
    ensures Ring(AfterRun(s, ops))
  {
    hide Ring, Effect, Legal;
    ghost var t := s;
    for k := 0 to |ops|
      invariant Ring(t) && (forall x <- t :: x in region)
      invariant LegalRun(t, ops[k..]) && AfterRun(t, ops[k..]) == AfterRun(s, ops)
    {
      assert ops[k..][0] == ops[k] && ops[k..][1..] == ops[k + 1..];
      EffectMembers(t, ops[k]);
      Perform(ops[k], t);
      t := Effect(t, ops[k]);
    }
  }

  // ---- walks ----

  ghost function Forward(e: ListEntry?, n: nat): seq<ListEntry>
    reads *
  {
    if n == 0 || e == null then [] else [e] + Forward(e.next, n - 1)
  }

  ghost function Backward(e: ListEntry?, n: nat): seq<ListEntry>
    reads *
  {
    if n == 0 || e == null then [] else [e] + Backward(e.prev, n - 1)
  }

  function Reversed<T>(s: seq<T>): seq<T> {
    if s == [] then [] else [s[|s| - 1]] + Reversed(s[..|s| - 1])
  }

  lemma {:induction false} ForwardIs(s: seq<ListEntry>, i: nat, n: nat)
    requires Ring(s) && i < |s| && i + n <= |s|
    ensures Forward(s[i], n) == s[i..i + n]
    decreases n
  {
    if n > 1 {
      Neighbours(s, i);
      ForwardIs(s, i + 1, n - 1);
    }
  }

  lemma {:induction false} BackwardIs(s: seq<ListEntry>, n: nat)
    requires Ring(s) && n <= |s|
    ensures n > 0 ==> Backward(s[n - 1], n) == Reversed(s[..n])
    decreases n
  {
    if n > 0 {
      Neighbours(s, n - 1);
      BackwardIs(s, n - 1);
      assert s[..n][..n - 1] == s[..n - 1];
    }
  }

  /** Walking once around forward gives the sequence, backward its reverse. */
  lemma Walks(s: seq<ListEntry>)
    requires Ring(s)
    ensures Forward(s[0], |s|) == s && Backward(s[0].prev, |s|) == Reversed(s)
    ensures s[|s| - 1].next == s[0]
  {
    ForwardIs(s, 0, |s|);
    BackwardIs(s, |s|);
    Neighbours(s, 0);
    Neighbours(s, |s| - 1);
    assert s[0..|s|] == s && s[..|s|] == s;
  }

  /** The links determine the ring: two rings with a common head are the same. */
  lemma RingUnique(s: seq<ListEntry>, t: seq<ListEntry>)
    requires Ring(s) && Ring(t) && s[0] == t[0]
    ensures s == t
  {
    if |s| <= |t| { SamePrefix(s, t); } else { SamePrefix(t, s); }
  }

  lemma SamePrefix(s: seq<ListEntry>, t: seq<ListEntry>)
    requires Ring(s) && Ring(t) && s[0] == t[0] && |s| <= |t|
    ensures s == t
  {
    ForwardIs(s, 0, |s|);
    ForwardIs(t, 0, |s|);
    assert t[0..|s|] == s[0..|s|] == s;
    Neighbours(s, |s| - 1);
    Neighbours(t, |s| - 1);
    assert s[|s| - 1] == t[0..|s|][|s| - 1] == t[|s| - 1];
    assert t[Succ(|s| - 1, |t|)] == t[0];
  }

  /** A ring may be read from any of its entries. */
  lemma Rotated(s: seq<ListEntry>, k: nat)
    requires Ring(s) && k < |s|
    ensures Ring(s[k..] + s[..k])
  {
    var t := s[k..] + s[..k];
    forall j | 0 <= j < |t|
      ensures Linked(t[j], t[Succ(j, |t|)])
    {
      var i := if j + k < |s| then j + k else j + k - |s|;
      assert Linked(s[i], s[Succ(i, |s|)]);
    }
  }
}
