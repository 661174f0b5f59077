/** Skew heaps as trees: merging, order, and the amortised cost. */
module SkewTree {
  import opened Arith

  datatype Tree<E> = Nil | Node(left: Tree<E>, e: E, right: Tree<E>)

  function Size<E>(t: Tree<E>): nat {
    match t
    case Nil => 0
    case Node(l, _, r) => Size(l) + 1 + Size(r)
  }

  ghost function Elems<E>(t: Tree<E>): set<E> {
    match t
    case Nil => {}
    case Node(l, e, r) => Elems(l) + {e} + Elems(r)
  }

  ghost function Bag<E>(t: Tree<E>): multiset<E> {
    match t
    case Nil => multiset{}
    case Node(l, e, r) => Bag(l) + multiset{e} + Bag(r)
  }

  /** The root with comp(a, b) == -1 is kept on top, its right subtree is merged with the other heap, and its subtrees
      are exchanged. */
  function Merge<E>(a: Tree<E>, b: Tree<E>, comp: (E, E) -> int): Tree<E>
    decreases Size(a) + Size(b)
  {
    if a.Nil? then b
    else if b.Nil? then a
    else if comp(a.e, b.e) == -1 then Node(Merge(a.right, b, comp), a.e, a.left)
    else Node(Merge(a, b.right, comp), b.e, b.left)
  }

  /** Calls of merge, the first one included. */
  function Calls<E>(a: Tree<E>, b: Tree<E>, comp: (E, E) -> int): nat
    decreases Size(a) + Size(b)
  {
    if a.Nil? || b.Nil? then 1
    else if comp(a.e, b.e) == -1 then 1 + Calls(a.right, b, comp)
    else 1 + Calls(a, b.right, comp)
  }

  lemma {:induction false} MergeElems<E>(a: Tree<E>, b: Tree<E>, comp: (E, E) -> int)
    ensures Elems(Merge(a, b, comp)) == Elems(a) + Elems(b)
    ensures Size(Merge(a, b, comp)) == Size(a) + Size(b)
    decreases Size(a) + Size(b)
  {
    if a.Node? && b.Node? {
      if comp(a.e, b.e) == -1 {
        MergeElems(a.right, b, comp);
      } else {
        MergeElems(a, b.right, comp);
      }
    }
  }

  // ---- merging as a merge of lists ----

  /** The subtrees on the right spine, from the root down. */
  function Spine<E>(t: Tree<E>): seq<Tree<E>> {
    if t.Nil? then [] else [t] + Spine(t.right)
  }

  /** The nodes of two lists in the order in which merging passes them, until one list is used up. */
  function Passed<E>(xs: seq<Tree<E>>, ys: seq<Tree<E>>, comp: (E, E) -> int): seq<Tree<E>>
    requires (forall x <- xs :: x.Node?) && (forall y <- ys :: y.Node?)
    decreases |xs| + |ys|
  {
    if xs == [] || ys == [] then []
    else if comp(xs[0].e, ys[0].e) == -1 then [xs[0]] + Passed(xs[1..], ys, comp)
    else [ys[0]] + Passed(xs, ys[1..], comp)
  }

  /** The heap that is left when one of the lists is used up. */
  function Rest<E>(xs: seq<Tree<E>>, ys: seq<Tree<E>>, comp: (E, E) -> int): Tree<E>
    requires (forall x <- xs :: x.Node?) && (forall y <- ys :: y.Node?)
    decreases |xs| + |ys|
  {
    if xs == [] then if ys == [] then Nil else ys[0]
    else if ys == [] then xs[0]
    else if comp(xs[0].e, ys[0].e) == -1 then Rest(xs[1..], ys, comp)
    else Rest(xs, ys[1..], comp)
  }

  /** Nodes one below the other to the left, each with its former left subtree on the right. */
  function Strung<E>(nodes: seq<Tree<E>>, rest: Tree<E>): Tree<E>
    requires forall x <- nodes :: x.Node?
  {
    if nodes == [] then rest else Node(Strung(nodes[1..], rest), nodes[0].e, nodes[0].left)
  }

  lemma {:induction false} SpineNodes<E>(t: Tree<E>)
    ensures forall x <- Spine(t) :: x.Node?
  {
    if t.Node? {
      SpineNodes(t.right);
    }
  }

  lemma {:induction false} PassedNodes<E>(xs: seq<Tree<E>>, ys: seq<Tree<E>>, comp: (E, E) -> int)
    requires (forall x <- xs :: x.Node?) && (forall y <- ys :: y.Node?)
    ensures forall x <- Passed(xs, ys, comp) :: x.Node?
    decreases |xs| + |ys|
  {
    if xs != [] && ys != [] {
      if comp(xs[0].e, ys[0].e) == -1 {
        PassedNodes(xs[1..], ys, comp);
      } else {
        PassedNodes(xs, ys[1..], comp);
      }
    }
  }

  /** Merging merges the two right spines as lists, up to the end of one of them, into a left spine above what is left,
      and exchanges the subtrees of the nodes passed; it makes one call for each of them and one more. */
  lemma {:induction false} MergeIs<E>(a: Tree<E>, b: Tree<E>, comp: (E, E) -> int)
    ensures (forall x <- Spine(a) :: x.Node?) && (forall y <- Spine(b) :: y.Node?)
    ensures var nodes := Passed(Spine(a), Spine(b), comp);
      && (forall x <- nodes :: x.Node?)
      && Merge(a, b, comp) == Strung(nodes, Rest(Spine(a), Spine(b), comp))
      && Calls(a, b, comp) == 1 + |nodes|
    decreases Size(a) + Size(b)
  {
    SpineNodes(a);
    SpineNodes(b);
    PassedNodes(Spine(a), Spine(b), comp);
    if a.Node? && b.Node? {
      assert Spine(a)[1..] == Spine(a.right) && Spine(b)[1..] == Spine(b.right);
      if comp(a.e, b.e) == -1 {
        MergeIs(a.right, b, comp);
      } else {
        MergeIs(a, b.right, comp);
      }
    }
  }

  lemma Shuffle<E>(x: multiset<E>, y: multiset<E>, z: multiset<E>, w: multiset<E>)
    ensures x + y + z + w == (z + w) + y + x
    ensures w + (x + y + z) == (w + z) + y + x
  {}

  /** Merging keeps every element, with its multiplicity. */
  lemma {:induction false} MergeBag<E>(a: Tree<E>, b: Tree<E>, comp: (E, E) -> int)
    ensures Bag(Merge(a, b, comp)) == Bag(a) + Bag(b)
    decreases Size(a) + Size(b)
  {
    if a.Node? && b.Node? {
      if comp(a.e, b.e) == -1 {
        MergeBag(a.right, b, comp);
        Shuffle(Bag(a.left), multiset{a.e}, Bag(a.right), Bag(b));
      } else {
        MergeBag(a, b.right, comp);
        Shuffle(Bag(b.left), multiset{b.e}, Bag(b.right), Bag(a));
      }
    }
  }

  // ---- order ----

  /** comp agrees with the total preorder leq on s: -1 means "not above", anything else "not below". */
  ghost predicate Agrees<E>(comp: (E, E) -> int, leq: (E, E) -> bool, s: set<E>) {
    && (forall x <- s :: leq(x, x))
    && (forall x <- s, y <- s, z <- s :: leq(x, y) && leq(y, z) ==> leq(x, z))
    && (forall x <- s, y <- s :: if comp(x, y) == -1 then leq(x, y) else leq(y, x))
  }

  ghost predicate Below<E>(x: E, s: set<E>, leq: (E, E) -> bool) {
    forall y <- s :: leq(x, y)
  }

  ghost predicate Ordered<E>(t: Tree<E>, leq: (E, E) -> bool) {
    match t
    case Nil => true
    case Node(l, e, r) => Below(e, Elems(l) + Elems(r), leq) && Ordered(l, leq) && Ordered(r, leq)
  }

  lemma RootBelow<E>(x: E, t: Tree<E>, comp: (E, E) -> int, leq: (E, E) -> bool, s: set<E>)
    requires Agrees(comp, leq, s) && x in s && Elems(t) <= s && t.Node? && Ordered(t, leq) && leq(x, t.e)
    ensures Below(x, Elems(t), leq)
  {
    forall y | y in Elems(t)
      ensures leq(x, y)
    {
      assert t.e in s && leq(t.e, y);
    }
  }

  /** Merging two heaps gives a heap. */
  lemma {:induction false} MergeOrdered<E>(a: Tree<E>, b: Tree<E>, comp: (E, E) -> int, leq: (E, E) -> bool, s: set<E>)
    requires Agrees(comp, leq, s) && Elems(a) <= s && Elems(b) <= s && Ordered(a, leq) && Ordered(b, leq)
    ensures Ordered(Merge(a, b, comp), leq)
    decreases Size(a) + Size(b)
  {
    if a.Node? && b.Node? {
      if comp(a.e, b.e) == -1 {
        MergeOrdered(a.right, b, comp, leq, s);
        MergeElems(a.right, b, comp);
        RootBelow(a.e, b, comp, leq, s);
      } else {
        MergeOrdered(a, b.right, comp, leq, s);
        MergeElems(a, b.right, comp);
        RootBelow(b.e, a, comp, leq, s);
      }
    }
  }

  // ---- draining ----

  /** What repeated removal of the root yields. */
  function Drain<E>(t: Tree<E>, comp: (E, E) -> int): seq<E>
    decreases Size(t)
  {
    if t.Nil? then [] else MergeElems(t.left, t.right, comp); [t.e] + Drain(Merge(t.left, t.right, comp), comp)
  }

  ghost predicate Sorted<E>(q: seq<E>, leq: (E, E) -> bool) {
    forall i, j | 0 <= i < j < |q| :: leq(q[i], q[j])
  }

  lemma SortedCons<E>(x: E, q: seq<E>, leq: (E, E) -> bool)
    requires Sorted(q, leq) && forall y <- q :: leq(x, y)
    ensures Sorted([x] + q, leq)
  {}

  lemma {:induction false} DrainBag<E>(t: Tree<E>, comp: (E, E) -> int)
    ensures multiset(Drain(t, comp)) == Bag(t)
    ensures forall x <- Drain(t, comp) :: x in Elems(t)
    decreases Size(t)
  {
    if t.Node? {
      var m := Merge(t.left, t.right, comp);
      MergeElems(t.left, t.right, comp);
      MergeBag(t.left, t.right, comp);
      DrainBag(m, comp);
      assert multiset([t.e] + Drain(m, comp)) == multiset{t.e} + multiset(Drain(m, comp));
    }
  }

  /** Repeated removal of the root yields a sorted permutation of the heap. */
  lemma {:induction false} DrainSorts<E>(t: Tree<E>, comp: (E, E) -> int, leq: (E, E) -> bool)
    requires Agrees(comp, leq, Elems(t)) && Ordered(t, leq)
    ensures Sorted(Drain(t, comp), leq) && multiset(Drain(t, comp)) == Bag(t)
    decreases Size(t)
  {
    hide Sorted, Agrees, Bag;
    DrainBag(t, comp);
    if t.Nil? {
      SortedNil<E>(leq);
    } else {
      var m := Merge(t.left, t.right, comp);
      MergeElems(t.left, t.right, comp);
      MergeOrdered(t.left, t.right, comp, leq, Elems(t));
      AgreesLess(comp, leq, Elems(t), Elems(m));
      DrainSorts(m, comp, leq);
      DrainBag(m, comp);
      SortedCons(t.e, Drain(m, comp), leq);
    }
  }

  lemma SortedNil<E>(leq: (E, E) -> bool)
    ensures Sorted<E>([], leq)
  {}

  lemma AgreesLess<E>(comp: (E, E) -> int, leq: (E, E) -> bool, s: set<E>, s': set<E>)
    requires Agrees(comp, leq, s) && s' <= s
    ensures Agrees(comp, leq, s')
  {}

  // ---- amortised cost ----

  /** The right subtree is strictly larger than the left. */
  predicate Heavy<E>(t: Tree<E>) {
    t.Node? && Size(t.right) > Size(t.left)
  }

  function Unit(b: bool): nat {
    if b then 1 else 0
  }

  /** The potential: the number of right-heavy nodes. */
  function Potential<E>(t: Tree<E>): nat {
    match t
    case Nil => 0
    case Node(l, _, r) => Unit(Heavy(t)) + Potential(l) + Potential(r)
  }

  /** Nodes on the right spine that are not right-heavy. */
  function LightSpine<E>(t: Tree<E>): nat {
    match t
    case Nil => 0
    case Node(_, _, r) => Unit(!Heavy(t)) + LightSpine(r)
  }

  /** Nodes that a merge passes and leaves right-heavy. */
  function LeftHeavy<E>(a: Tree<E>, b: Tree<E>, comp: (E, E) -> int): nat
    decreases Size(a) + Size(b)
  {
    if a.Nil? || b.Nil? then 0
    else if comp(a.e, b.e) == -1 then Unit(Heavy(Merge(a, b, comp))) + LeftHeavy(a.right, b, comp)
    else Unit(Heavy(Merge(a, b, comp))) + LeftHeavy(a, b.right, comp)
  }

  lemma {:induction false} LightSpineBound<E>(t: Tree<E>)
    ensures Pow2(LightSpine(t)) <= Size(t) + 1
  {
    if t.Node? {
      LightSpineBound(t.right);
    }
  }

  lemma {:induction false} LeftHeavyBound<E>(a: Tree<E>, b: Tree<E>, comp: (E, E) -> int)
    ensures Pow2(LeftHeavy(a, b, comp)) <= Size(a) + Size(b) + 1
    decreases Size(a) + Size(b)
  {
    if a.Node? && b.Node? {
      if comp(a.e, b.e) == -1 {
        LeftHeavyBound(a.right, b, comp);
        MergeElems(a.right, b, comp);
      } else {
        LeftHeavyBound(a, b.right, comp);
        MergeElems(a, b.right, comp);
      }
    }
  }

  /** Every node a merge passes pays for its call with its potential, or was light. */
  lemma {:induction false} MergeAccount<E>(a: Tree<E>, b: Tree<E>, comp: (E, E) -> int)
    ensures Calls(a, b, comp) + Potential(Merge(a, b, comp))
         <= Potential(a) + Potential(b) + 1 + LightSpine(a) + LightSpine(b) + LeftHeavy(a, b, comp)
    decreases Size(a) + Size(b)
  {
    if a.Node? && b.Node? {
      if comp(a.e, b.e) == -1 {
        MergeAccount(a.right, b, comp);
        MergeElems(a.right, b, comp);
      } else {
        MergeAccount(a, b.right, comp);
        MergeElems(a, b.right, comp);
      }
    }
  }

  /** Amortised cost of a merge of n nodes in all: at most 3 log2(n + 1) + 1. */
  lemma MergeCost<E>(a: Tree<E>, b: Tree<E>, comp: (E, E) -> int)
    ensures Calls(a, b, comp) + Potential(Merge(a, b, comp))
         <= Potential(a) + Potential(b) + 3 * Log2(Size(a) + Size(b) + 1) + 1
  {
    hide Size, Merge, Calls, Potential, LightSpine, LeftHeavy, Pow2, Log2;
    var n := Size(a) + Size(b) + 1;
    MergeAccount(a, b, comp);
    LightSpineBound(a);
    LightSpineBound(b);
    LeftHeavyBound(a, b, comp);
    Log2Of(LightSpine(a), n);
    Log2Of(LightSpine(b), n);
    Log2Of(LeftHeavy(a, b, comp), n);
  }

  // ---- removing any element ----

  ghost predicate Distinct<E>(t: Tree<E>) {
    match t
    case Nil => true
    case Node(l, e, r) => e !in Elems(l) && e !in Elems(r) && Elems(l) !! Elems(r) && Distinct(l) && Distinct(r)
  }

  /** The heap without element x: the node of x gives way to the merge of its subtrees. */
  ghost function Remove<E>(t: Tree<E>, x: E, comp: (E, E) -> int): Tree<E>
    requires x in Elems(t)
  {
    if x == t.e then Merge(t.left, t.right, comp)
    else if x in Elems(t.left) then Node(Remove(t.left, x, comp), t.e, t.right)
    else Node(t.left, t.e, Remove(t.right, x, comp))
  }

  /** The subtree whose root is x. */
  ghost function At<E>(t: Tree<E>, x: E): (s: Tree<E>)
    requires x in Elems(t)
    ensures s.Node? && s.e == x && Elems(s) <= Elems(t) && Size(s) <= Size(t)
  {
    if x == t.e then t else if x in Elems(t.left) then At(t.left, x) else At(t.right, x)
  }

  ghost function RemoveCalls<E>(t: Tree<E>, x: E, comp: (E, E) -> int): nat
    requires x in Elems(t)
  {
    Calls(At(t, x).left, At(t, x).right, comp)
  }

  /** Removing x takes away x and nothing else. */
  lemma {:induction false} RemoveElems<E>(t: Tree<E>, x: E, comp: (E, E) -> int)
    requires x in Elems(t) && Distinct(t)
    ensures Elems(Remove(t, x, comp)) == Elems(t) - {x}
    ensures Size(Remove(t, x, comp)) == Size(t) - 1
  {
    if x == t.e {
      MergeElems(t.left, t.right, comp);
    } else if x in Elems(t.left) {
      RemoveElems(t.left, x, comp);
    } else {
      RemoveElems(t.right, x, comp);
    }
  }

  lemma {:induction false} MergeDistinct<E>(a: Tree<E>, b: Tree<E>, comp: (E, E) -> int)
    requires Distinct(a) && Distinct(b) && Elems(a) !! Elems(b)
    ensures Distinct(Merge(a, b, comp))
    decreases Size(a) + Size(b)
  {
    if a.Node? && b.Node? {
      if comp(a.e, b.e) == -1 {
        MergeDistinct(a.right, b, comp);
        MergeElems(a.right, b, comp);
      } else {
        MergeDistinct(a, b.right, comp);
        MergeElems(a, b.right, comp);
      }
    }
  }

  lemma {:induction false} RemoveDistinct<E>(t: Tree<E>, x: E, comp: (E, E) -> int)
    requires x in Elems(t) && Distinct(t)
    ensures Distinct(Remove(t, x, comp))
  {
    if x == t.e {
      MergeDistinct(t.left, t.right, comp);
    } else if x in Elems(t.left) {
      RemoveDistinct(t.left, x, comp);
      RemoveElems(t.left, x, comp);
    } else {
      RemoveDistinct(t.right, x, comp);
      RemoveElems(t.right, x, comp);
    }
  }

  /** Removing any element of a heap leaves a heap. */
  lemma {:induction false} RemoveOrdered<E>(t: Tree<E>, x: E, comp: (E, E) -> int, leq: (E, E) -> bool, s: set<E>)
    requires Agrees(comp, leq, s) && Elems(t) <= s && x in Elems(t) && Distinct(t) && Ordered(t, leq)
    ensures Ordered(Remove(t, x, comp), leq)
  {
    hide Agrees, Distinct;
    DistinctParts(t);
    if x == t.e {
      MergeOrdered(t.left, t.right, comp, leq, s);
    } else if x in Elems(t.left) {
      RemoveOrdered(t.left, x, comp, leq, s);
      RemoveElems(t.left, x, comp);
    } else {
      RemoveOrdered(t.right, x, comp, leq, s);
      RemoveElems(t.right, x, comp);
    }
  }

  lemma DistinctParts<E>(t: Tree<E>)
    requires Distinct(t) && t.Node?
    ensures Distinct(t.left) && Distinct(t.right)
  {}

  // ---- amortised cost of a removal ----

  /** Ancestors of x that its removal makes right-heavy. */
  ghost function Raised<E>(t: Tree<E>, x: E, comp: (E, E) -> int): nat
    requires x in Elems(t)
  {
    if x == t.e then 0
    else if x in Elems(t.left) then Unit(Heavy(Remove(t, x, comp)) && !Heavy(t)) + Raised(t.left, x, comp)
    else Raised(t.right, x, comp)
  }

  lemma {:induction false} RaisedBound<E>(t: Tree<E>, x: E, comp: (E, E) -> int)
    requires x in Elems(t) && Distinct(t)
    ensures Pow2(Raised(t, x, comp)) <= Size(t) + 1
  {
    if x == t.e {
    } else if x in Elems(t.left) {
      RaisedBound(t.left, x, comp);
      RemoveElems(t.left, x, comp);
    } else {
      RaisedBound(t.right, x, comp);
    }
  }

  /** The potential falls by that of the removed subtree, and rises by that of its replacement and of the ancestors
      made heavy. */
  lemma {:induction false} RemoveAccount<E>(t: Tree<E>, x: E, comp: (E, E) -> int)
    requires x in Elems(t) && Distinct(t)
    ensures var s := At(t, x);
      Potential(Remove(t, x, comp)) + Potential(s)
        <= Potential(t) + Potential(Merge(s.left, s.right, comp)) + Raised(t, x, comp)
  {
    if x == t.e {
    } else if x in Elems(t.left) {
      RemoveAccount(t.left, x, comp);
      RemoveElems(t.left, x, comp);
    } else {
      RemoveAccount(t.right, x, comp);
      RemoveElems(t.right, x, comp);
    }
  }

  lemma SizeParts<E>(t: Tree<E>)
    requires t.Node?
    ensures Size(t) == Size(t.left) + 1 + Size(t.right)
    ensures Potential(t.left) + Potential(t.right) <= Potential(t)
  {}

  /** Amortised cost of removing any element of a heap of n nodes: at most 4 log2(n + 1) + 1; the ancestors'
      part of it is at most log2(n + 1). */
  lemma RemoveCost<E>(t: Tree<E>, x: E, comp: (E, E) -> int)
    requires x in Elems(t) && Distinct(t)
    ensures Raised(t, x, comp) <= Log2(Size(t) + 1)
    ensures RemoveCalls(t, x, comp) + Potential(Remove(t, x, comp)) <= Potential(t) + 4 * Log2(Size(t) + 1) + 1
  {
    hide Size, Merge, Remove, Calls, Potential, Raised, Pow2, Log2, At;
    var s := At(t, x);
    SizeParts(s);
    RemoveAccount(t, x, comp);
    MergeCost(s.left, s.right, comp);
    RaisedBound(t, x, comp);
    Log2Of(Raised(t, x, comp), Size(t) + 1);
    Log2Mono(Size(s.left) + Size(s.right) + 1, Size(t) + 1);
  }

  // ---- runs ----

  /** An insertion or a removal, with the comparator of the time. */
  datatype Op<!E> = Put(x: E, comp: (E, E) -> int) | Take(x: E, comp: (E, E) -> int)

  function Leaf<E>(x: E): Tree<E> {
    Node(Nil, x, Nil)
  }

  /** Elements are put once and taken only while they are in the heap. */
  ghost predicate Legal<E>(t: Tree<E>, op: Op<E>) {
    match op
    case Put(x, _) => x !in Elems(t)
    case Take(x, _) => x in Elems(t)
  }

  ghost function Step<E>(t: Tree<E>, op: Op<E>): Tree<E>
    requires Legal(t, op)
  {
    match op
    case Put(x, comp) => Merge(t, Leaf(x), comp)
    case Take(x, comp) => Remove(t, x, comp)
  }

  ghost function StepCalls<E>(t: Tree<E>, op: Op<E>): nat
    requires Legal(t, op)
  {
    match op
    case Put(x, comp) => Calls(t, Leaf(x), comp)
    case Take(x, comp) => RemoveCalls(t, x, comp)
  }

  /** A run whose heap never has more than n nodes. */
  ghost predicate RunWithin<E>(t: Tree<E>, ops: seq<Op<E>>, n: nat)
    decreases |ops|
  {
    Size(t) <= n && (ops == [] || (Legal(t, ops[0]) && RunWithin(Step(t, ops[0]), ops[1..], n)))
  }

  ghost function RunCalls<E>(t: Tree<E>, ops: seq<Op<E>>, n: nat): nat
    requires RunWithin(t, ops, n)
    decreases |ops|
  {
    if ops == [] then 0 else StepCalls(t, ops[0]) + RunCalls(Step(t, ops[0]), ops[1..], n)
  }

  ghost function Final<E>(t: Tree<E>, ops: seq<Op<E>>, n: nat): Tree<E>
    requires RunWithin(t, ops, n)
    decreases |ops|
  {
    if ops == [] then t else Final(Step(t, ops[0]), ops[1..], n)
  }

  lemma StepDistinct<E>(t: Tree<E>, op: Op<E>)
    requires Legal(t, op) && Distinct(t)
    ensures Distinct(Step(t, op))
  {
    match op
    case Put(x, comp) => MergeDistinct(t, Leaf(x), comp);
    case Take(x, comp) => RemoveDistinct(t, x, comp);
  }

  lemma LeafIs<E>(x: E)
    ensures Size(Leaf(x)) == 1 && Potential(Leaf(x)) == 0
  {
    assert Size<E>(Nil) == 0;
  }

  lemma StepCost<E>(t: Tree<E>, op: Op<E>, n: nat)
    requires Legal(t, op) && Distinct(t) && Size(t) <= n && Size(Step(t, op)) <= n
    ensures StepCalls(t, op) + Potential(Step(t, op)) <= Potential(t) + 4 * Log2(n + 1) + 1
  {
    hide Merge, Calls, Remove, RemoveCalls, Log2, Potential, Size, Leaf, Distinct, Elems;
    match op
    case Put(x, comp) =>
      LeafIs(x);
      MergeCost(t, Leaf(x), comp);
      MergeElems(t, Leaf(x), comp);
      Log2Mono(Size(t) + 2, n + 1);
    case Take(x, comp) =>
      RemoveCost(t, x, comp);
      Log2Mono(Size(t) + 1, n + 1);
  }

  lemma MulNext(k: nat, c: nat)
    ensures (k + 1) * c == c + k * c
  {}

  lemma WithinNext<E>(t: Tree<E>, ops: seq<Op<E>>, n: nat)
    requires RunWithin(t, ops, n) && ops != []
    ensures Legal(t, ops[0]) && Size(t) <= n && Size(Step(t, ops[0])) <= n
    ensures RunWithin(Step(t, ops[0]), ops[1..], n)
  {
    hide Step, Legal, Size;
  }

  lemma {:induction false} RunCost<E>(t: Tree<E>, ops: seq<Op<E>>, n: nat)
    requires RunWithin(t, ops, n) && Distinct(t)
    ensures RunCalls(t, ops, n) + Potential(Final(t, ops, n)) <= Potential(t) + |ops| * (4 * Log2(n + 1) + 1)
    decreases |ops|
  {
    hide Step, Legal, Size, Log2, StepCalls, Potential, Distinct, Elems;
    if ops != [] {
      WithinNext(t, ops, n);
      var t' := Step(t, ops[0]);
      StepDistinct(t, ops[0]);
      StepCost(t, ops[0], n);
      RunCost(t', ops[1..], n);
      MulNext(|ops[1..]|, 4 * Log2(n + 1) + 1);
    }
  }

  /** Any run of m insertions and removals, of any members and with any
      comparators, from the empty heap makes at most
      m (4 log2(n + 1) + 1) calls of merge, n bounding the size of the heap. */
  lemma RunFromEmpty<E>(ops: seq<Op<E>>, n: nat)
    requires RunWithin(Nil, ops, n)
    ensures RunCalls(Nil, ops, n) <= |ops| * (4 * Log2(n + 1) + 1)
  {
    RunCost(Nil, ops, n);
  }

  // ---- order over runs ----

  ghost function SetStep<E>(s: set<E>, op: Op<E>): set<E> {
    if op.Put? then s + {op.x} else s - {op.x}
  }

  lemma StepOrdered<E>(t: Tree<E>, op: Op<E>, leq: (E, E) -> bool, s: set<E>)
    requires Legal(t, op) && Distinct(t) && Ordered(t, leq) && Agrees(op.comp, leq, s) && Elems(t) <= s && op.x in s
    ensures Ordered(Step(t, op), leq)
    ensures Elems(Step(t, op)) == SetStep(Elems(t), op)
  {
    if op.Put? {
      assert Elems(Leaf(op.x)) == {op.x};
      MergeOrdered(t, Leaf(op.x), op.comp, leq, s);
      MergeElems(t, Leaf(op.x), op.comp);
    } else {
      RemoveOrdered(t, op.x, op.comp, leq, s);
      RemoveElems(t, op.x, op.comp);
    }
  }

  lemma {:induction false} BagOfDistinct<E>(t: Tree<E>)
    requires Distinct(t)
    ensures Bag(t) == multiset(Elems(t))
  {
    if t.Node? {
      BagOfDistinct(t.left);
      BagOfDistinct(t.right);
    }
  }

  /** After any run, with comparators that agree with one order, the elements come out of the heap in that order, each
      element that is in it exactly once. */
  lemma {:induction false} RunThenDrain<E>(t: Tree<E>, ops: seq<Op<E>>, comp: (E, E) -> int, leq: (E, E) -> bool, n: nat,
                                              s: set<E>)
    requires RunWithin(t, ops, n) && Distinct(t) && Ordered(t, leq)
    requires Agrees(comp, leq, s) && Elems(t) <= s && forall op <- ops :: op.x in s && Agrees(op.comp, leq, s)
    ensures var f := Final(t, ops, n);
      Sorted(Drain(f, comp), leq) && multiset(Drain(f, comp)) == multiset(Members(Elems(t), ops))
    decreases |ops|
  {
    hide Step, Legal, Size, Sorted, Distinct, Elems, Agrees, Ordered, Drain, Bag;
    if ops == [] {
      AgreesLess(comp, leq, s, Elems(t));
      DrainSorts(t, comp, leq);
      BagOfDistinct(t);
    } else {
      WithinNext(t, ops, n);
      var t' := Step(t, ops[0]);
      StepDistinct(t, ops[0]);
      StepOrdered(t, ops[0], leq, s);
      RunThenDrain(t', ops[1..], comp, leq, n, s);
    }
  }

  /** The set of elements after a run, from the operations alone. */
  ghost function Members<E>(s: set<E>, ops: seq<Op<E>>): set<E>
    decreases |ops|
  {
    if ops == [] then s else Members(SetStep(s, ops[0]), ops[1..])
  }
}
