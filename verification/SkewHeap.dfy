/** Skew heaps on parent-linked nodes, updated in place. */
module SkewHeap {
  import opened SkewTree

  class Entry {
    var parent: Entry?
    var left: Entry?
    var right: Entry?

    constructor ()
      ensures left == null && right == null && parent == null
    {
      left, right, parent := null, null, null;
    }
  }

  function Root(t: Tree<Entry>): Entry? {
    if t.Nil? then null else t.e
  }

  /** Entry e has the children that t gives it, and they point back. */
  ghost predicate Placed(t: Tree<Entry>, e: Entry)
    requires e in Elems(t)
    reads Elems(t)
  {
    var s := At(t, e);
    && e.left == Root(s.left) && e.right == Root(s.right)
    && (s.left.Node? ==> ChildIn(t, e, s.left.e) && s.left.e.parent == e)
    && (s.right.Node? ==> ChildIn(t, e, s.right.e) && s.right.e.parent == e)
  }

  ghost predicate ChildIn(t: Tree<Entry>, e: Entry, c: Entry) {
    c in Elems(t)
  }

  /** Entry p is the root of a heap of the shape of t: children, parent links below the root, and no sharing. */
  ghost predicate Heap(p: Entry?, t: Tree<Entry>)
    reads Elems(t)
  {
    p == Root(t) && Distinct(t) && forall e <- Elems(t) :: Placed(t, e)
  }

  method Init(a: Entry)
    modifies a
    ensures Heap(a, Leaf(a)) && a.parent == null
  {
    a.left, a.right, a.parent := null, null, null;
  }

  lemma AtSub(t: Tree<Entry>, e: Entry)
    requires Distinct(t) && t.Node?
    ensures e in Elems(t.left) ==> e in Elems(t) && At(t, e) == At(t.left, e)
    ensures e in Elems(t.right) ==> e in Elems(t) && At(t, e) == At(t.right, e)
    ensures t.e in Elems(t) && At(t, t.e) == t
  {}

  /** Entry e is placed alike in a heap and in the subtree s of it. */
  lemma PlacedSub(t: Tree<Entry>, s: Tree<Entry>, e: Entry)
    requires e in Elems(s) && e in Elems(t) && Elems(s) <= Elems(t) && At(t, e) == At(s, e)
    ensures Placed(t, e) <==> Placed(s, e)
  {
    ChildrenIn(s, e);
  }

  lemma ChildrenIn(t: Tree<Entry>, e: Entry)
    requires e in Elems(t)
    ensures var s := At(t, e);
      (s.left.Node? ==> ChildIn(t, e, s.left.e)) && (s.right.Node? ==> ChildIn(t, e, s.right.e))
  {
    assert Elems(At(t, e)) <= Elems(t);
  }

  /** The subtrees of a heap are heaps that share nothing. */
  lemma HeapParts(p: Entry?, t: Tree<Entry>)
    requires Heap(p, t) && t.Node?
    ensures p == t.e && Heap(t.e.left, t.left) && Heap(t.e.right, t.right)
    ensures t.left.Node? ==> t.left.e in Elems(t.left) && t.left.e.parent == t.e
    ensures t.right.Node? ==> t.right.e in Elems(t.right) && t.right.e.parent == t.e
    ensures t.e !in Elems(t.left) && t.e !in Elems(t.right) && Elems(t.left) !! Elems(t.right)
    ensures Elems(t) == Elems(t.left) + {t.e} + Elems(t.right)
  {
    hide At;
    AtSub(t, t.e);
    assert Placed(t, t.e);
    forall e | e in Elems(t.left)
      ensures Placed(t.left, e)
    {
      AtSub(t, e);
      PlacedSub(t, t.left, e);
    }
    forall e | e in Elems(t.right)
      ensures Placed(t.right, e)
    {
      AtSub(t, e);
      PlacedSub(t, t.right, e);
    }
  }

  /** Two heaps under a common root. */
  lemma HeapJoin(x: Entry, tl: Tree<Entry>, tr: Tree<Entry>)
    requires Heap(x.left, tl) && Heap(x.right, tr)
    requires (tl.Node? ==> tl.e.parent == x) && (tr.Node? ==> tr.e.parent == x)
    requires x !in Elems(tl) && x !in Elems(tr) && Elems(tl) !! Elems(tr)
    ensures Heap(x, Node(tl, x, tr))
  {
    hide At;
    var t := Node(tl, x, tr);
    forall e | e in Elems(t)
      ensures Placed(t, e)
    {
      AtSub(t, e);
      AtSub(t, x);
      ChildrenIn(t, e);
      if e in Elems(tl) {
        PlacedSub(t, tl, e);
      } else if e in Elems(tr) {
        PlacedSub(t, tr, e);
      }
    }
  }

  /** Heap does not depend on the parent of the root. */
  method SetParent(l: Entry, x: Entry?, ghost t: Tree<Entry>, ghost s: set<Entry>)
    requires Heap(l, t) && Elems(t) <= s
    modifies l`parent
    ensures Heap(l, t) && l.parent == x
  {
    hide At, Distinct, Elems;
    RootOnTop(t);
    l.parent := x;
    forall e | e in Elems(t)
      ensures Placed(t, e)
    {
      assert old(Placed(t, e));
    }
  }

  /** The root is nobody's child. */
  lemma RootOnTop(t: Tree<Entry>)
    requires Distinct(t) && t.Node?
    ensures t.e in Elems(t)
    ensures forall e <- Elems(t) :: Root(At(t, e).left) != t.e && Root(At(t, e).right) != t.e
  {
    forall e | e in Elems(t)
      ensures Root(At(t, e).left) != t.e && Root(At(t, e).right) != t.e
    {
      if e in Elems(t.left) {
        ChildrenIn(t.left, e);
      } else if e in Elems(t.right) {
        ChildrenIn(t.right, e);
      }
    }
  }

  method Merge(a: Entry?, b: Entry?, comp: (Entry, Entry) -> int, ghost ta: Tree<Entry>, ghost tb: Tree<Entry>,
               ghost s: set<Entry>) returns (m: Entry?, ghost calls: nat)
    requires Heap(a, ta) && Heap(b, tb) && Elems(ta) !! Elems(tb) && Elems(ta) + Elems(tb) <= s
    modifies Elems(ta) + Elems(tb)
    ensures Heap(m, SkewTree.Merge(ta, tb, comp)) && calls == Calls(ta, tb, comp)
    ensures m == if a == null then b else if b == null || comp(a, b) == -1 then a else b
    ensures m != null ==> m.parent == old(m.parent)
    decreases Size(ta) + Size(tb)
  {
    hide Distinct, Elems, Heap, Placed, At;
    RootOf(a, ta);
    RootOf(b, tb);
    if a == null { return b, 1; }
    if b == null { return a, 1; }
    HeapParts(a, ta);
    HeapParts(b, tb);
    var r, l;
    if comp(a, b) == -1 {
      r := a.left;
      l, calls := Merge(a.right, b, comp, ta.right, tb, s);
      MergeElems(ta.right, tb, comp);
      Attach(a, l, r, SkewTree.Merge(ta.right, tb, comp), ta.left, s);
      return a, calls + 1;
    } else {
      r := b.left;
      l, calls := Merge(a, b.right, comp, ta, tb.right, s);
      MergeElems(ta, tb.right, comp);
      Attach(b, l, r, SkewTree.Merge(ta, tb.right, comp), tb.left, s);
      return b, calls + 1;
    }
  }

  /** Put l on the left and r, the former left subtree, on the right of x. */
  method Attach(x: Entry, l: Entry?, r: Entry?, ghost tl: Tree<Entry>, ghost tr: Tree<Entry>, ghost s: set<Entry>)
    requires Elems(tl) + Elems(tr) <= s && Heap(l, tl) && Heap(r, tr) && (tr.Node? ==> tr.e.parent == x)
    requires x !in Elems(tl) && x !in Elems(tr) && Elems(tl) !! Elems(tr)
    modifies x`left, x`right, Elems(tl)
    ensures Heap(x, Node(tl, x, tr)) && x.parent == old(x.parent)
  {
    hide Distinct, Elems, Heap, Placed, At;
    RootOf(l, tl);
    RootOf(r, tr);
    x.left := l;
    x.right := r;
    if l != null { SetParent(l, x, tl, s); }
    HeapJoin(x, tl, tr);
  }

  lemma RootOf(p: Entry?, t: Tree<Entry>)
    requires Heap(p, t)
    ensures p == Root(t) && Distinct(t) && (t.Node? ==> p in Elems(t))
  {}

  /** Insert b, whatever its links were. */
  method Insert(a: Entry?, b: Entry, comp: (Entry, Entry) -> int, ghost t: Tree<Entry>, ghost s: set<Entry>)
    returns (m: Entry, ghost calls: nat)
    requires Heap(a, t) && b !in Elems(t) && Elems(t) + {b} <= s && (a != null ==> a.parent == null)
    modifies Elems(t) + {b}
    ensures Heap(m, SkewTree.Merge(t, Leaf(b), comp)) && calls == Calls(t, Leaf(b), comp)
    ensures m.parent == null
  {
    hide Distinct, Heap, Placed, At;
    RootOf(a, t);
    Init(b);
    assert Elems(Leaf(b)) == {b};
    var r;
    r, calls := Merge(a, b, comp, t, Leaf(b), s);
    m := r;
  }

  // ---- removal ----

  lemma {:induction false} SubHeap(p: Entry?, t: Tree<Entry>, x: Entry)
    requires Heap(p, t) && x in Elems(t)
    ensures Heap(x, At(t, x)) && Elems(At(t, x)) <= Elems(t)
  {
    hide Heap, Placed;
    HeapParts(p, t);
    if x == t.e {
    } else if x in Elems(t.left) {
      SubHeap(t.e.left, t.left, x);
    } else {
      SubHeap(t.e.right, t.right, x);
    }
  }

  ghost function ParentIn(t: Tree<Entry>, x: Entry): Entry
    requires x in Elems(t) && x != t.e
  {
    if x == Root(t.left) || x == Root(t.right) then t.e
    else if x in Elems(t.left) then ParentIn(t.left, x)
    else ParentIn(t.right, x)
  }

  /** Every entry but the root has a parent, which is not below it. */
  lemma {:induction false} ParentIs(t: Tree<Entry>, x: Entry)
    requires Distinct(t) && x in Elems(t) && x != t.e
    ensures var p := ParentIn(t, x);
      p in Elems(t) && p !in Elems(At(t, x)) && (Root(At(t, p).left) == x || Root(At(t, p).right) == x)
  {
    AtSub(t, x);
    if x == Root(t.left) || x == Root(t.right) {
      AtSub(t, t.e);
    } else if x in Elems(t.left) {
      ParentIs(t.left, x);
      AtSub(t, ParentIn(t.left, x));
    } else {
      ParentIs(t.right, x);
      AtSub(t, ParentIn(t.right, x));
    }
  }

  ghost function Outside(t: Tree<Entry>, x: Entry): set<Entry>
    requires x in Elems(t)
  {
    Elems(t) - Elems(At(t, x))
  }

  function Instead(c: Entry?, x: Entry, r: Entry?): Entry? {
    if c == x then r else c
  }

  /** Child c of e is x, and then e is p; or it lies outside the heap of x and points back. */
  ghost predicate Linked(t: Tree<Entry>, x: Entry, p: Entry?, e: Entry, c: Entry?)
    requires x in Elems(t)
    reads Outside(t, x)
  {
    if c == null then true else if c == x then e == p else c in Outside(t, x) && c.parent == e
  }

  /** Outside the heap of x every entry is placed as in t, but with r for x. */
  ghost predicate Around(t: Tree<Entry>, x: Entry, r: Entry?, p: Entry?)
    requires x in Elems(t)
    reads Outside(t, x)
  {
    forall e <- Outside(t, x) :: var u := At(t, e);
      && e.left == Instead(Root(u.left), x, r) && e.right == Instead(Root(u.right), x, r)
      && Linked(t, x, p, e, Root(u.left)) && Linked(t, x, p, e, Root(u.right))
  }

  lemma ChildOutside(a: Entry?, t: Tree<Entry>, x: Entry, e: Entry, c: Entry)
    requires Heap(a, t) && x in Elems(t) && e in Outside(t, x) && c in Elems(t) && c.parent == e && c != x
    ensures c in Outside(t, x)
  {
    hide Elems, At;
    SubHeap(a, t, x);
    if c in Elems(At(t, x)) {
      ParentLink(x, At(t, x), c);
    }
  }

  lemma ParentLink(p: Entry?, t: Tree<Entry>, c: Entry)
    requires Heap(p, t) && c in Elems(t) && c != p
    ensures c.parent in Elems(t)
  {
    hide ParentIn, Elems;
    ParentIs(t, c);
    assert Placed(t, ParentIn(t, c));
  }

  lemma AroundAtFirst(a: Entry?, t: Tree<Entry>, x: Entry)
    requires Heap(a, t) && x in Elems(t)
    ensures Around(t, x, x, x.parent)
  {
    hide Elems;
    forall e | e in Outside(t, x)
      ensures var u := At(t, e);
        && e.left == Root(u.left) && e.right == Root(u.right)
        && Linked(t, x, x.parent, e, Root(u.left)) && Linked(t, x, x.parent, e, Root(u.right))
    {
      assert Placed(t, e);
      var u := At(t, e);
      if u.left.Node? && u.left.e != x {
        ChildOutside(a, t, x, e, u.left.e);
      }
      if u.right.Node? && u.right.e != x {
        ChildOutside(a, t, x, e, u.right.e);
      }
    }
  }

  /** Outside the heap of x a removal changes no child but x. */
  lemma {:induction false} RemoveAt(t: Tree<Entry>, x: Entry, comp: (Entry, Entry) -> int, e: Entry)
    requires Distinct(t) && x in Elems(t) && e in Outside(t, x)
    ensures var t' := SkewTree.Remove(t, x, comp);
      var r := Root(SkewTree.Merge(At(t, x).left, At(t, x).right, comp));
      && e in Elems(t')
      && Root(At(t', e).left) == Instead(Root(At(t, e).left), x, r)
      && Root(At(t', e).right) == Instead(Root(At(t, e).right), x, r)
  {
    hide SkewTree.Merge;
    RemoveElems(t, x, comp);
    RemoveDistinct(t, x, comp);
    var t' := SkewTree.Remove(t, x, comp);
    AtSub(t, x);
    if x == t.e {
    } else if e == t.e {
      AtSub(t', e);
    } else {
      AtSub(t, e);
      AtSub(t', e);
      if x in Elems(t.left) {
        if e in Elems(t.left) { RemoveAt(t.left, x, comp, e); } else { ChildrenIn(t.right, e); }
      } else {
        if e in Elems(t.right) { RemoveAt(t.right, x, comp, e); } else { ChildrenIn(t.left, e); }
      }
    }
  }

  /** The heap that takes the place of x is a subtree of the result. */
  lemma {:induction false} RemoveAtNew(t: Tree<Entry>, x: Entry, comp: (Entry, Entry) -> int, e: Entry)
    requires Distinct(t) && x in Elems(t)
    requires e in Elems(SkewTree.Merge(At(t, x).left, At(t, x).right, comp))
    ensures var t' := SkewTree.Remove(t, x, comp);
      e in Elems(t') && At(t', e) == At(SkewTree.Merge(At(t, x).left, At(t, x).right, comp), e)
  {
    hide SkewTree.Merge;
    RemoveElems(t, x, comp);
    RemoveDistinct(t, x, comp);
    AtSub(t, x);
    if x != t.e {
      if x in Elems(t.left) {
        RemoveAtNew(t.left, x, comp, e);
      } else {
        RemoveAtNew(t.right, x, comp, e);
      }
      AtSub(SkewTree.Remove(t, x, comp), e);
    }
  }

  lemma Split(t: Tree<Entry>, x: Entry, comp: (Entry, Entry) -> int)
    requires Distinct(t) && x in Elems(t)
    ensures Distinct(SkewTree.Remove(t, x, comp))
    ensures Elems(SkewTree.Remove(t, x, comp))
         == Outside(t, x) + Elems(SkewTree.Merge(At(t, x).left, At(t, x).right, comp))
  {
    RemoveElems(t, x, comp);
    RemoveDistinct(t, x, comp);
    var u := At(t, x);
    MergeElems(u.left, u.right, comp);
    DistinctAt(t, x);
  }

  lemma {:induction false} DistinctAt(t: Tree<Entry>, x: Entry)
    requires Distinct(t) && x in Elems(t)
    ensures Distinct(At(t, x))
  {
    if x == t.e {
    } else if x in Elems(t.left) {
      DistinctAt(t.left, x);
    } else {
      DistinctAt(t.right, x);
    }
  }

  /** A heap in place of x, and everything else as it was: the heap without x. */
  lemma Spliced(t: Tree<Entry>, x: Entry, comp: (Entry, Entry) -> int, r: Entry?, p: Entry?)
    requires Distinct(t) && x in Elems(t) && x != t.e && Around(t, x, r, p)
    requires Heap(r, SkewTree.Merge(At(t, x).left, At(t, x).right, comp)) && (r != null ==> r.parent == p)
    ensures Heap(t.e, SkewTree.Remove(t, x, comp))
  {
    hide Elems, At, Distinct, SkewTree.Merge;
    var u := At(t, x);
    var rt := SkewTree.Merge(u.left, u.right, comp);
    var t' := SkewTree.Remove(t, x, comp);
    Split(t, x, comp);
    forall e | e in Elems(t')
      ensures Placed(t', e)
    {
      ChildrenIn(t', e);
      if e in Elems(rt) {
        RemoveAtNew(t, x, comp, e);
        assert Placed(rt, e);
        PlacedSub(t', rt, e);
      } else {
        assert e in Outside(t, x);
        RemoveAt(t, x, comp, e);
      }
    }
  }

  lemma TwoChildren(t: Tree<Entry>, p: Entry)
    requires Distinct(t) && p in Elems(t)
    ensures Root(At(t, p).left) == null || Root(At(t, p).left) != Root(At(t, p).right)
  {
    DistinctAt(t, p);
  }

  /** Parent p takes rep in place of its child b. */
  method Redirect(p: Entry, b: Entry, rep: Entry?, ghost t: Tree<Entry>, ghost s: set<Entry>)
    requires b in Elems(t) && p in Outside(t, b) && Around(t, b, b, p) && (p.left == b) != (p.right == b)
    requires Elems(t) <= s
    modifies p`left, p`right
    ensures Around(t, b, rep, p)
  {
    hide Elems, At;
    if p.left == b {
      p.left := rep;
    } else {
      p.right := rep;
    }
  }

  /** Remove any member b of the heap at a, the root included. */
  method Remove(a: Entry, b: Entry, comp: (Entry, Entry) -> int, ghost t: Tree<Entry>, ghost s: set<Entry>)
    returns (m: Entry?, ghost calls: nat)
    requires Heap(a, t) && b in Elems(t) && Elems(t) <= s && a.parent == null
    modifies Elems(t)
    ensures Heap(m, SkewTree.Remove(t, b, comp)) && calls == RemoveCalls(t, b, comp)
    ensures m != null ==> m.parent == null
  {
    hide Elems, Heap, Placed, At, Distinct, ParentIn, SkewTree.Merge, Around, SkewTree.Remove;
    RootOf(a, t);
    ghost var u := At(t, b);
    SubHeap(a, t, b);
    HeapParts(b, u);
    AroundAtFirst(a, t, b);
    ghost var rt := SkewTree.Merge(u.left, u.right, comp);
    MergeElems(u.left, u.right, comp);
    var p := b.parent;
    var rep;
    assert Outside(t, b) <= s && Outside(t, b) !! Elems(u);
    rep, calls := Merge(b.left, b.right, comp, u.left, u.right, s);
    assert Around(t, b, b, p);
    RootOf(rep, rt);
    if rep != null { SetParent(rep, p, rt, s); }
    assert Around(t, b, b, p);
    if b == a { AtRoot(t); } else { HasParent(t, b, p); }
    if p != null {
      Redirect(p, b, rep, t, s);
      Spliced(t, b, comp, rep, p);
      return a, calls;
    } else {
      RemoveRoot(t, comp);
      return rep, calls;
    }
  }

  lemma RemoveRoot(t: Tree<Entry>, comp: (Entry, Entry) -> int)
    requires t.Node?
    ensures t.e in Elems(t) && SkewTree.Remove(t, t.e, comp) == SkewTree.Merge(t.left, t.right, comp)
  {}

  lemma AtRoot(t: Tree<Entry>)
    requires t.Node?
    ensures t.e in Elems(t) && At(t, t.e) == t
  {}

  lemma HasParent(t: Tree<Entry>, x: Entry, p: Entry?)
    requires Distinct(t) && x in Elems(t) && x != t.e && Around(t, x, x, p)
    ensures p != null && p in Outside(t, x) && t.e in Outside(t, x)
    ensures (p.left == x) != (p.right == x)
  {
    ParentIs(t, x);
    TwoChildren(t, ParentIn(t, x));
    AtSub(t, x);
  }
}
