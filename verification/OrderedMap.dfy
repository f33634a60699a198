/** The ordered map: a red-black tree of nodes with parent and child pointers, whose sentinel is shared
    and therefore never written. */
module OrderedMap {
  import opened Words
  import opened Sorts
  import opened OrderedLists
  import opened RbTrees

  /** A search has come to the place of `t`: everything in front of it is below `key`, everything
      behind it above. */
  ghost predicate Narrowed<N, K, V>(cmp: Cmp<K>, d: map<N, Entry<K, V>>, key: K, p: Path<N>) {
    AllBelow(cmp, key, Listed(d, Before(p))) && AllAbove(cmp, key, Listed(d, After(p)))
  }

  /** One comparison of the search. */
  lemma Compare<N, K(!new), V>(cmp: Cmp<K>, d: map<N, Entry<K, V>>, key: K, p: Path<N>, t: Tree<N>)
    requires TotalPreorder(cmp) && t.Fork? && t.node in d && Narrowed(cmp, d, key, p)
    requires Ascending(cmp, Listed(d, Inorder(Plug(p, t))))
    ensures var whole, a, b := Listed(d, Inorder(Plug(p, t))), Listed(d, LeftOf(p, t)), Listed(d, RightOf(p, t));
      whole == a + [d[t.node]] + b && (cmp(key, d[t.node].key) == 0 ==> AllBelow(cmp, key, a))
    ensures cmp(key, d[t.node].key) > 0 ==> Narrowed(cmp, d, key, Step(p, t.node, t.red, true, t.left))
    ensures cmp(key, d[t.node].key) < 0 ==> Narrowed(cmp, d, key, Step(p, t.node, t.red, false, t.right))
  {
    hide *;
    OrderAt(p, t);
    ListedThree(d, LeftOf(p, t), t.node, RightOf(p, t));
    Sides(cmp, key, Listed(d, LeftOf(p, t)), d[t.node], Listed(d, RightOf(p, t)));
    if cmp(key, d[t.node].key) > 0 { GoRight(cmp, d, key, p, t); }
    if cmp(key, d[t.node].key) < 0 { GoLeft(cmp, d, key, p, t); }
  }

  lemma GoRight<N, K, V>(cmp: Cmp<K>, d: map<N, Entry<K, V>>, key: K, p: Path<N>, t: Tree<N>)
    requires t.Fork? && t.node in d && Narrowed(cmp, d, key, p) && cmp(key, d[t.node].key) > 0
    requires AllBelow(cmp, key, Listed(d, LeftOf(p, t)))
    ensures Narrowed(cmp, d, key, Step(p, t.node, t.red, true, t.left))
  {
    hide Inorder, Listed;
    assert Before(p) + (Inorder(t.left) + [t.node]) == LeftOf(p, t) + [t.node] + [];
    ListedThree(d, LeftOf(p, t), t.node, []);
    ListedNil(d);
  }

  lemma GoLeft<N, K, V>(cmp: Cmp<K>, d: map<N, Entry<K, V>>, key: K, p: Path<N>, t: Tree<N>)
    requires t.Fork? && t.node in d && Narrowed(cmp, d, key, p) && cmp(key, d[t.node].key) < 0
    requires AllAbove(cmp, key, Listed(d, RightOf(p, t)))
    ensures Narrowed(cmp, d, key, Step(p, t.node, t.red, false, t.right))
  {
    hide Inorder, Listed;
    assert ([t.node] + Inorder(t.right)) + After(p) == [] + [t.node] + RightOf(p, t);
    ListedThree(d, [], t.node, RightOf(p, t));
    ListedNil(d);
  }

  lemma Sides<K(!new), V>(cmp: Cmp<K>, key: K, a: seq<Entry<K, V>>, x: Entry<K, V>, b: seq<Entry<K, V>>)
    requires TotalPreorder(cmp) && Ascending(cmp, a + [x] + b)
    ensures cmp(key, x.key) >= 0 ==> AllBelow(cmp, key, a)
    ensures cmp(key, x.key) <= 0 ==> AllAbove(cmp, key, b)
  {
    hide TotalPreorder;
    var s := a + [x] + b;
    forall i | 0 <= i < |a| && cmp(key, x.key) >= 0
      ensures cmp(key, a[i].key) > 0
    {
      assert s[i] == a[i] && s[|a|] == x;
      Trans(cmp, key, x.key, a[i].key);
      Trans(cmp, a[i].key, x.key, key);
    }
    forall i | 0 <= i < |b| && cmp(key, x.key) <= 0
      ensures cmp(key, b[i].key) < 0
    {
      assert s[|a| + 1 + i] == b[i] && s[|a|] == x;
      Trans(cmp, key, x.key, b[i].key);
    }
  }

  lemma Begun<N, K, V>(cmp: Cmp<K>, d: map<N, Entry<K, V>>, key: K, t: Tree<N>)
    ensures Plug(Top, t) == t && Narrowed(cmp, d, key, Top)
  {}

  lemma Down<N>(p: Path<N>, t: Tree<N>, dir: bool)
    requires t.Fork?
    ensures Plug(Step(p, t.node, t.red, dir, t.Kid(!dir)), t.Kid(dir)) == Plug(p, t)
  {}

  /** At an empty place the search has split the entries at the key. */
  lemma Missed<N, K, V>(cmp: Cmp<K>, d: map<N, Entry<K, V>>, key: K, p: Path<N>)
    requires Narrowed(cmp, d, key, p)
    ensures Lookup(cmp, Listed(d, Inorder(Plug(p, Leaf))), key) == None
  {
    hide Plug, Listed, Lookup;
    InorderPlug(p, Leaf);
    assert Before(p) + [] + After(p) == Before(p) + After(p);
    ListedPlus(d, Before(p), After(p));
    var a, b := Listed(d, Before(p)), Listed(d, After(p));
    if a != [] {
      MissAt(cmp, a, b, Entry(key, a[0].el), false);
    } else {
      assert a + b == b;
      AboveMiss(cmp, b, key);
    }
  }

  /** What an insertion does to the entries. */
  lemma InsertedOrder<N, K, V>(cmp: Cmp<K>, d: map<N, Entry<K, V>>, d': map<N, Entry<K, V>>, p: Path<N>, n: N,
                               e: Entry<K, V>)
    requires Narrowed(cmp, d, e.key, p) && n !in d && d' == d[n := e]
    requires n !in Before(p) && n !in After(p)
    ensures var s, s' := Listed(d, Inorder(Plug(p, Leaf))), Listed(d', Before(p) + [n] + After(p));
      s' == Put(cmp, s, e, true) && s' == Put(cmp, s, e, false)
  {
    hide Plug, Listed, Put, Before, After;
    InorderPlug(p, Leaf);
    assert Before(p) + [] + After(p) == Before(p) + After(p);
    ListedPlus(d, Before(p), After(p));
    ListedThree(d', Before(p), n, After(p));
    ListedFrame(d, d', Before(p));
    ListedFrame(d, d', After(p));
    MissAt(cmp, Listed(d, Before(p)), Listed(d, After(p)), e, true);
    MissAt(cmp, Listed(d, Before(p)), Listed(d, After(p)), e, false);
  }

  /** What a replacement does to the entries. */
  lemma OverwrittenOrder<N, K, V>(cmp: Cmp<K>, d: map<N, Entry<K, V>>, p: Path<N>, t: Tree<N>, e: Entry<K, V>,
                                  replace: bool)
    requires t.Fork? && t.node in d && cmp(e.key, d[t.node].key) == 0 && NoDup(Inorder(Plug(p, t)))
    requires AllBelow(cmp, e.key, Listed(d, LeftOf(p, t)))
    ensures var s := Listed(d, Inorder(Plug(p, t)));
      && Lookup(cmp, s, e.key).Some?
      && Put(cmp, s, e, replace) == (if replace then Listed(d[t.node := e], Inorder(Plug(p, t))) else s)
  {
    hide Plug, Inorder, Listed, Put, LeftOf, RightOf, Lookup, NoDup;
    var a, b := LeftOf(p, t), RightOf(p, t);
    var d' := d[t.node := e];
    OrderAt(p, t);
    DropOne(a, t.node, b);
    ListedThree(d, a, t.node, b);
    ListedThree(d', a, t.node, b);
    ListedFrame(d, d', a);
    ListedFrame(d, d', b);
    HitAt(cmp, Listed(d, a), d[t.node], Listed(d, b), e, replace);
  }

  /** What an erasure does to the entries. */
  lemma ErasedOrder<N, K(!new), V>(cmp: Cmp<K>, d: map<N, Entry<K, V>>, o: seq<N>, n: N)
    requires TotalPreorder(cmp) && Ascending(cmp, Listed(d, o)) && n in o && n in d && NoDup(o)
    ensures Listed(d, Without(o, n)) == Drop(cmp, Listed(d, o), d[n].key)
    ensures |o| == |Without(o, n)| + 1 && forall m :: m in Without(o, n) ==> m in o && m != n
  {
    hide TotalPreorder, Listed, Drop, NoDup, Without, Ascending;
    var i :| 0 <= i < |o| && o[i] == n;
    var a, b := o[..i], o[i + 1..];
    assert o == a + [n] + b;
    WithoutAt(a, n, b);
    DropOne(a, n, b);
    ListedThree(d, a, n, b);
    ListedPlus(d, a, b);
    Reflexive(cmp, d[n].key);
    Sides(cmp, d[n].key, Listed(d, a), d[n], Listed(d, b));
    HitAt(cmp, Listed(d, a), d[n], Listed(d, b), d[n], true);
  }

  lemma DropNone<K, V>(cmp: Cmp<K>, s: seq<Entry<K, V>>, key: K)
    requires Lookup(cmp, s, key) == None
    ensures Drop(cmp, s, key) == s
  {}

  /** Equal keys are dropped alike. */
  lemma {:induction false} DropEqual<K(!new), V>(cmp: Cmp<K>, s: seq<Entry<K, V>>, j: K, k: K)
    requires TotalPreorder(cmp) && cmp(j, k) == 0
    ensures Drop(cmp, s, j) == Drop(cmp, s, k)
  {
    if s != [] {
      Equivalent(cmp, j, k, s[0].key);
      Equivalent(cmp, k, j, s[0].key);
      DropEqual(cmp, s[1..], j, k);
    }
  }

  lemma NeighborStays<N>(s: seq<N>, n: N)
    requires NoDup(s) && n in s
    ensures Neighbor(s, n, true).At? ==> Neighbor(s, n, true).node in Without(s, n)
  {
    var i := Index(s, n);
    var a, b := s[..i], s[i + 1..];
    assert s == a + [n] + b;
    WithoutAt(a, n, b);
    if i + 1 < |s| { assert s[i + 1] == b[0]; }
  }

  lemma InSeq<N>(a: seq<N>, n: N, b: seq<N>)
    ensures n in (a + [n]) + b
  {
    assert ((a + [n]) + b)[|a|] == n;
  }

  lemma ListedNil<N, K, V>(d: map<N, Entry<K, V>>)
    ensures Listed(d, []) == []
  {}

  class Node<K, V> {
    var parent: Node<K, V>
    var children: Kids<Node<K, V>>
    var isRed: bool
    var key: K
    var el: V

    constructor (key: K, el: V, sentinel: Node<K, V>, parent: Node<K, V>)
      ensures this.parent == parent && children == Kids(sentinel, sentinel) && isRed
      ensures this.key == key && this.el == el
    {
      this.parent, children, isRed, this.key, this.el := parent, Kids(sentinel, sentinel), true, key, el;
    }
  }

  class Map<K(!new), V> {
    const sentinel: Node<K, V>
    const cmp: Cmp<K>
    var root: Node<K, V>
    var size: nat
    ghost var repr: set<Node<K, V>>
    ghost var tree: Tree<Node<K, V>>

    /** The pointers and colours of the nodes. */
    ghost function Cells(): Heap<Node<K, V>>
      reads this`repr, repr`parent, repr`children, repr`isRed
    {
      map n | n in repr :: Cell(n.parent, n.children, n.isRed)
    }

    /** The nodes draw the tree. */
    ghost predicate Wired()
      reads this`repr, this`tree, this`root, sentinel`isRed, repr`parent, repr`children, repr`isRed
    {
      && sentinel !in repr && !sentinel.isRed
      && Drawn(Cells(), sentinel, tree, sentinel) && root == Root(tree, sentinel) && NoDup(Inorder(tree))
    }

    /** Keys and elements of the nodes. */
    ghost function Data(): map<Node<K, V>, Entry<K, V>>
      reads this`repr, repr`key, repr`el
    {
      map n | n in repr :: Entry(n.key, n.el)
    }

    /** The entries in the order of the tree. */
    ghost function Contents(): seq<Entry<K, V>>
      reads this`repr, this`tree, repr`key, repr`el
    {
      Listed(Data(), Inorder(tree))
    }

    ghost predicate Valid()
      reads this, sentinel`isRed, repr
    {
      && Wired() && RedBlack(tree) && size == |Inorder(tree)|
      && TotalPreorder(cmp) && Ascending(cmp, Contents())
    }

    constructor (sentinel: Node<K, V>, cmp: Cmp<K>)
      requires !sentinel.isRed && TotalPreorder(cmp)
      ensures Valid() && Contents() == [] && repr == {} && this.sentinel == sentinel && this.cmp == cmp
    {
      this.sentinel, this.cmp, root, size, repr, tree := sentinel, cmp, sentinel, 0, {}, Leaf;
    }

    // ---- lookup ----

    /** The node with an equal key, if there is one. The number of comparisons is at most twice the logarithm
        of the size. */
    method Get(key: K) returns (r: Option<Node<K, V>>, ghost steps: nat)
      requires Valid()
      ensures Pow2(steps) <= (size + 1) * (size + 1)
      ensures r.None? <==> forall n :: n in Inorder(tree) ==> cmp(key, n.key) != 0
      ensures r.None? ==> Lookup(cmp, Contents(), key) == None
      ensures r.Some? ==> r.value in repr && r.value in Inorder(tree) && cmp(key, r.value.key) == 0
      ensures r.Some? ==> Lookup(cmp, Contents(), key) == Some(r.value.el)
    {
      hide Plug, Inorder, Drawn, NoDup, Good, RedBlack, TotalPreorder, Ascending, Lookup, Listed, Narrowed, Before,
        After;
      var node := root;
      ghost var p: Path<Node<K, V>>, t := Top, tree;
      steps := 0;
      Begun(cmp, Data(), key, tree);
      Shallow(tree);
      FewSteps(0);
      while node != sentinel
        invariant tree == Plug(p, t) && node == Root(t, sentinel) && Narrowed(cmp, Data(), key, p)
        invariant steps + Levels(t) <= Levels(tree)
        decreases t
      {
        Spot(Cells(), sentinel, p, t);
        Compare(cmp, Data(), key, p, t);
        var cmprResult := cmp(key, node.key);
        steps := steps + 1;
        if cmprResult == 0 {
          FewSteps(steps);
          HitAt(cmp, Listed(Data(), LeftOf(p, t)), Entry(node.key, node.el), Listed(Data(), RightOf(p, t)),
                Entry(key, node.el), false);
          OrderAt(p, t);
          return Some(node), steps;
        }
        Down(p, t, cmprResult > 0);
        p, t := Step(p, t.node, t.red, cmprResult > 0, t.Kid(cmprResult <= 0)), t.Kid(cmprResult > 0);
        node := node.children.At(cmprResult > 0);
      }
      Spot(Cells(), sentinel, p, t);
      Missed(cmp, Data(), key, p);
      NoneEqual(key);
      FewSteps(steps);
      return None, steps;
    }

    lemma FewSteps(steps: nat)
      requires Valid() && steps <= Levels(tree)
      ensures Pow2(steps) <= (size + 1) * (size + 1)
    {
      hide Pow2, Levels, RedBlack, Wired, Ascending, TotalPreorder;
      Shallow(tree);
      Pow2Grows(steps, Levels(tree));
    }

    lemma NoneEqual(key: K)
      requires Valid() && Lookup(cmp, Contents(), key) == None
      ensures forall n :: n in Inorder(tree) ==> cmp(key, n.key) != 0
    {
      hide Plug, Inorder, NoDup, RedBlack, TotalPreorder, Ascending, Lookup, Listed, Drawn;
      forall n | n in Inorder(tree)
        ensures cmp(key, n.key) != 0
      {
        Members(n);
        NotListed(cmp, Data(), Inorder(tree), key, n);
      }
    }

    /** One node changes its colour. */
    method Paint(n: Node<K, V>, red: bool, ghost p: Path<Node<K, V>>, ghost t: Tree<Node<K, V>>)
      requires Wired() && tree == Plug(p, t) && t.Fork? && n == t.node
      modifies repr`isRed, this`tree
      ensures Wired() && tree == Plug(p, t.(red := red)) && Inorder(tree) == old(Inorder(tree))
    {
      hide Plug, Inorder, Drawn, NoDup;
      ghost var h := Cells();
      Spot(h, sentinel, p, t);
      n.isRed := red;
      PaintWritten(h, Cells(), sentinel, p, t, red);
      tree := Plug(p, t.(red := red));
      PaintKeeps(sentinel, p, t, red);
    }

    /** A standard rotation towards `dir`. */
    method Rotate(node: Node<K, V>, dir: bool, ghost p: Path<Node<K, V>>, ghost t: Tree<Node<K, V>>)
      requires Wired() && tree == Plug(p, t) && t.Fork? && node == t.node && t.Kid(!dir).Fork?
      modifies repr`parent, repr`children, this`root, this`tree
      ensures Wired() && tree == Plug(p, Rotated(t, dir)) && Inorder(tree) == old(Inorder(tree))
    {
      hide Plug, Inorder, Drawn, NoDup, Turned, Turnable;
      ghost var h := Cells();
      RotateSpots(h, sentinel, p, t, dir);
      Turn(node, dir, p.Step? && p.dir, t.Kid(!dir).node, Root(t.Kid(!dir).Kid(dir), sentinel), Owner(p, sentinel));
      RotateWritten(h, Cells(), sentinel, p, t, dir);
      tree := Plug(p, Rotated(t, dir));
      RotateKeeps(sentinel, p, t, dir);
    }

    /** The pointer writes of a rotation. */
    method Turn(node: Node<K, V>, dir: bool, ghost side: bool, ghost c: Node<K, V>, ghost g: Node<K, V>,
                ghost o: Node<K, V>)
      requires Turnable(Cells(), sentinel, dir, side, node, c, g, o)
      modifies repr`parent, repr`children, this`root
      ensures Turned(old(Cells()), Cells(), sentinel, dir, side, node, c, g, o)
      ensures root == if o == sentinel then c else old(root)
    {
      var child := node.children.At(!dir);
      TurnInner(node, dir, child, g, o);
      TurnOuter(node, dir, side, child, o);
    }

    /** The inner grandchild goes over to the node, and the child up to the parent of the node. */
    method TurnInner(node: Node<K, V>, dir: bool, child: Node<K, V>, ghost g: Node<K, V>, ghost o: Node<K, V>)
      requires node in repr && child in repr && node != child && sentinel !in repr
      requires child.children.At(dir) == g && node.parent == o
      requires (g != sentinel ==> g in repr && g != node && g != child)
      modifies repr`parent, repr`children
      ensures node in repr && child in repr && SameBut(old(Cells()), Cells(), {node, child, g})
      ensures Cells()[node] == old(Cells()[node]).SetKid(!dir, g)
      ensures Cells()[child] == old(Cells()[child]).(parent := o)
      ensures g != sentinel ==> g in repr && Cells()[g] == old(Cells()[g]).(parent := node)
    {
      var inner := child.children.At(dir);
      node.children := node.children.With(!dir, inner);
      if inner != sentinel {
        inner.parent := node;
      }
      if child != sentinel {
        child.parent := node.parent;
      }
    }

    /** The child takes the place of the node below the parent, and the node becomes its child. */
    method TurnOuter(node: Node<K, V>, dir: bool, ghost side: bool, child: Node<K, V>, ghost o: Node<K, V>)
      requires node in repr && child in repr && node != child && sentinel !in repr && node.parent == o
      requires o != sentinel ==> o in repr && o != node && o != child && (side <==> o.children.right == node)
      modifies repr`parent, repr`children, this`root
      ensures node in repr && child in repr && SameBut(old(Cells()), Cells(), {node, child, o})
      ensures Cells()[node] == old(Cells()[node]).(parent := child)
      ensures Cells()[child] == old(Cells()[child]).SetKid(dir, node)
      ensures o != sentinel ==> o in repr && Cells()[o] == old(Cells()[o]).SetKid(side, child)
      ensures root == if o == sentinel then child else old(root)
    {
      if node.parent != sentinel {
        node.parent.children := node.parent.children.With(node == node.parent.children.At(true), child);
      } else {
        root := child;
      }
      child.children := child.children.With(dir, node);
      if node != sentinel {
        node.parent := child;
      }
    }

    // ---- insertion ----

    /** Restores the red-black conditions above a red node that may have a red parent. */
    method PostInsertFixup(node0: Node<K, V>, ghost p0: Path<Node<K, V>>, ghost t0: Tree<Node<K, V>>)
      requires Wired() && tree == Plug(p0, t0) && RedBelow(p0, t0) && node0 == t0.node
      modifies repr`parent, repr`children, repr`isRed, this`root, this`tree
      ensures Wired() && RedBlack(tree) && Inorder(tree) == old(Inorder(tree))
    {
      hide Plug, Inorder, Drawn, NoDup, Good, PathGood, RedBlack, Recolored, Lifted, Straight;
      var node := node0;
      ghost var p, t := p0, t0;
      InsertGuard(Cells(), sentinel, p, t);
      while node != root && node.parent.isRed
        invariant Wired() && tree == Plug(p, t) && RedBelow(p, t) && node == t.node
        invariant Inorder(tree) == old(Inorder(tree))
        invariant node in repr && (node == root <==> p.Top?)
        invariant p.Step? ==> node.parent == p.node && p.node in repr && p.node.isRed == p.red
        decreases if RedStep(p) then Depth(p) else 0
      {
        RedParent(p, t);
        InsertSpots(Cells(), sentinel, p, t);
        var dir := node.parent == node.parent.parent.children.left;
        var uncle := node.parent.parent.children.At(dir);
        if uncle.isRed {
          RecoloredBelow(p, t);
          Recolor(node, uncle, p, t);
          node := node.parent.parent;
          p, t := p.up.up, Recolored(p, t);
        } else {
          node, p, t := Raise(node, dir, p, t);
        }
        InsertGuard(Cells(), sentinel, p, t);
      }
      InsertSettled(p, t);
      PlugTop(tree);
      PlugTop(tree.(red := false));
      Paint(root, false, Top, tree);
    }

    /** Under a black uncle one or two rotations settle the matter. */
    method Raise(node: Node<K, V>, dir: bool, ghost p: Path<Node<K, V>>, ghost t: Tree<Node<K, V>>)
      returns (r: Node<K, V>, ghost p': Path<Node<K, V>>, ghost t': Tree<Node<K, V>>)
      requires Wired() && tree == Plug(p, t) && RedBelow(p, t) && t.Fork? && node == t.node && RedStep(p)
      requires p.up.Step? && !p.up.red && dir == !p.up.dir && !IsRed(p.up.other)
      modifies repr`parent, repr`children, repr`isRed, this`root, this`tree
      ensures Wired() && tree == Plug(p', t') && RedBelow(p', t') && t'.Fork? && r == t'.node && !RedStep(p')
      ensures Inorder(tree) == old(Inorder(tree))
    {
      hide Plug, Inorder, Drawn, NoDup, Good, PathGood, Lifted, Rotated;
      InsertSpots(Cells(), sentinel, p, t);
      StraightBelow(p, t);
      r, p', t' := node, p, t;
      if node == node.parent.children.At(dir) {
        r := node.parent;
        Rotate(r, !dir, p.up, Forked(true, p.node, p.dir, t, p.other));
        var (p1, t1) := Straight(p, t);
        p', t' := p1, t1;
      }
      LiftedBelow(p', t');
      Lift(r, dir, p', t');
      p' := Lifted(p');
    }

    /** Parent and uncle turn black, the grandparent red. */
    method Recolor(node: Node<K, V>, uncle: Node<K, V>, ghost p: Path<Node<K, V>>, ghost t: Tree<Node<K, V>>)
      requires Wired() && tree == Plug(p, t) && t.Fork? && node == t.node && RedStep(p) && p.up.Step? && !p.up.red
      requires p.up.other.Fork? && uncle == p.up.other.node
      modifies repr`isRed, this`tree
      ensures Wired() && tree == Plug(p.up.up, Recolored(p, t)) && Inorder(tree) == old(Inorder(tree))
      ensures node.parent == p.node && p.node.parent == p.up.node && Recolored(p, t).node == p.up.node
    {
      hide Plug, Inorder, Drawn, NoDup;
      InsertSpots(Cells(), sentinel, p, t);
      RecolorSteps(p, t);
      ghost var up, g := p.up, p.up.other;
      Paint(node.parent, false, up, Forked(true, p.node, p.dir, t, p.other));
      ghost var par := Forked(false, p.node, p.dir, t, p.other);
      Paint(uncle, false, Step(up.up, up.node, up.red, !up.dir, par), g);
      Paint(node.parent.parent, true, up.up, Forked(false, up.node, up.dir, par, g.(red := false)));
    }

    /** The parent turns black, the grandparent red and is rotated below the parent. */
    method Lift(node: Node<K, V>, dir: bool, ghost p: Path<Node<K, V>>, ghost t: Tree<Node<K, V>>)
      requires Wired() && tree == Plug(p, t) && t.Fork? && node == t.node && RedStep(p) && p.up.Step? && !p.up.red
      requires p.dir == p.up.dir && dir == !p.dir
      modifies repr`parent, repr`children, repr`isRed, this`root, this`tree
      ensures Wired() && tree == Plug(Lifted(p), t) && Inorder(tree) == old(Inorder(tree))
    {
      hide Plug, Inorder, Drawn, NoDup;
      InsertSpots(Cells(), sentinel, p, t);
      LiftSteps(p, t);
      ghost var up := p.up;
      Paint(node.parent, false, up, Forked(true, p.node, p.dir, t, p.other));
      ghost var par := Forked(false, p.node, p.dir, t, p.other);
      Paint(node.parent.parent, true, up.up, Forked(false, up.node, up.dir, par, up.other));
      Rotate(node.parent.parent, dir, up.up, Forked(true, up.node, up.dir, par, up.other));
    }

    /** Hangs a new red leaf at an empty place. */
    method Attach(n: Node<K, V>, parent: Node<K, V>, dir: bool, ghost p: Path<Node<K, V>>)
      requires Wired() && tree == Plug(p, Leaf) && n !in repr && n != sentinel && parent == Owner(p, sentinel)
      requires n.parent == parent && n.children == Kids(sentinel, sentinel) && n.isRed && (p.Step? ==> dir == p.dir)
      modifies this`root, this`repr, this`tree, repr`children
      ensures Wired() && tree == Plug(p, Fork(true, Leaf, n, Leaf)) && repr == old(repr) + {n}
      ensures Inorder(tree) == Before(p) + [n] + After(p)
    {
      hide Plug, Inorder, Drawn, NoDup, Before, After;
      ghost var h := Cells();
      Spot(h, sentinel, p, Leaf);
      DrawnNodes(h, sentinel, tree, sentinel);
      Sprouted(sentinel, p, n);
      if parent != sentinel {
        parent.children := parent.children.With(dir, n);
      } else {
        root := n;
      }
      repr := repr + {n};
      AttachWritten(h, Cells(), sentinel, p, n);
      tree := Plug(p, Fork(true, Leaf, n, Leaf));
    }

    /** A new node is attached where the search ended, and the conditions restored. */
    method InsertNew(key: K, el: V, parent: Node<K, V>, dir: bool, ghost p: Path<Node<K, V>>)
      returns (n: Node<K, V>)
      requires Valid() && tree == Plug(p, Leaf) && Narrowed(cmp, Data(), key, p)
      requires parent == Owner(p, sentinel) && (p.Step? ==> dir == p.dir)
      modifies this`root, this`size, this`repr, this`tree, repr`parent, repr`children, repr`isRed
      ensures Valid() && fresh(n) && repr == old(repr) + {n} && n in Inorder(tree) && n.key == key && n.el == el
      ensures Contents() == Put(cmp, old(Contents()), Entry(key, el), true)
      ensures Contents() == Put(cmp, old(Contents()), Entry(key, el), false)
    {
      hide Plug, Inorder, Drawn, NoDup, Before, After, RedBlack, Narrowed, Listed, Ascending, Put, TotalPreorder, Wired;
      hide Cells;
      ghost var d, c := Data(), Contents();
      n := new Node(key, el, sentinel, parent);
      Fresh(n, p);
      Attach(n, parent, dir, p);
      PostInsertFixup(n, p, Fork(true, Leaf, n, Leaf));
      size := size + 1;
      InsertedOrder(cmp, d, Data(), p, n, Entry(key, el));
      PutDropAscending(cmp, c, Entry(key, el), true);
    }

    lemma Fresh(n: Node<K, V>, p: Path<Node<K, V>>)
      requires Wired() && n !in repr && tree == Plug(p, Leaf) && RedBlack(tree)
      ensures n !in Inorder(tree) && n !in Before(p) && n !in After(p) && RedBelow(p, Fork(true, Leaf, n, Leaf))
      ensures |Before(p) + [n] + After(p)| == |Inorder(tree)| + 1
    {
      hide Plug, NoDup, RedBlack, Before, After;
      DrawnNodes(Cells(), sentinel, tree, sentinel);
      Sprouted(sentinel, p, n);
    }

    /** Inserts an entry, or finds the one with an equal key and replaces it if asked to. Fails only for
        a new key without memory. */
    method Insert(key: K, el: V, replace: bool, granted: bool) returns (r: Option<Node<K, V>>)
      requires Valid()
      modifies this`root, this`size, this`repr, this`tree, repr
      ensures Valid()
      ensures r.None? <==> !granted && Lookup(cmp, old(Contents()), key) == None
      ensures Contents() == if r.None? then old(Contents()) else Put(cmp, old(Contents()), Entry(key, el), replace)
      ensures r.Some? ==> r.value in repr && r.value in Inorder(tree) && cmp(key, r.value.key) == 0
      ensures if r.Some? && Lookup(cmp, old(Contents()), key) == None
        then fresh(r.value) && repr == old(repr) + {r.value}
        else repr == old(repr) && Inorder(tree) == old(Inorder(tree))
      ensures forall n :: n in old(repr) && (r == Some(n) ==> !replace) ==> n.key == old(n.key) && n.el == old(n.el)
      ensures r.Some? && (replace || r.value !in old(repr)) ==> r.value.key == key && r.value.el == el
    {
      hide Plug, Inorder, Drawn, NoDup, Good, RedBlack, TotalPreorder, Ascending, Lookup, Listed, Narrowed, Before,
        After, Put, LeftOf, RightOf;
      var node, parent, cmprResult, p, t := FindPlace(key);
      Spot(Cells(), sentinel, p, t);
      if node != sentinel {
        Compare(cmp, Data(), key, p, t);
        Overwrite(node, key, el, replace, p, t);
        return Some(node);
      }
      Missed(cmp, Data(), key, p);
      if !granted {
        return None;
      }
      Reflexive(cmp, key);
      node := InsertNew(key, el, parent, cmprResult > 0, p);
      r := Some(node);
    }

    /** The node with an equal key, or the sentinel where a new one belongs, with the parent and the last
        comparison on the way there. */
    method FindPlace(key: K)
      returns (node: Node<K, V>, parent: Node<K, V>, cmprResult: int,
               ghost p: Path<Node<K, V>>, ghost t: Tree<Node<K, V>>)
      requires Valid()
      ensures tree == Plug(p, t) && node == Root(t, sentinel) && Narrowed(cmp, Data(), key, p)
      ensures parent == Owner(p, sentinel) && (p.Step? && t.Leaf? ==> p.dir == (cmprResult > 0))
      ensures t.Fork? ==> node in repr && cmp(key, node.key) == 0
    {
      hide Plug, Inorder, Drawn, NoDup, Good, RedBlack, TotalPreorder, Ascending, Lookup, Listed, Narrowed, Before,
        After, Put, LeftOf, RightOf;
      node, parent, cmprResult := root, sentinel, 0;
      p, t := Top, tree;
      Begun(cmp, Data(), key, tree);
      while node != sentinel
        invariant tree == Plug(p, t) && node == Root(t, sentinel) && Narrowed(cmp, Data(), key, p)
        invariant parent == Owner(p, sentinel) && (p.Step? ==> p.dir == (cmprResult > 0))
        decreases t
      {
        Spot(Cells(), sentinel, p, t);
        Compare(cmp, Data(), key, p, t);
        cmprResult := cmp(key, node.key);
        if cmprResult == 0 {
          return;
        }
        Down(p, t, cmprResult > 0);
        p, t := Step(p, t.node, t.red, cmprResult > 0, t.Kid(cmprResult <= 0)), t.Kid(cmprResult > 0);
        parent := node;
        node := node.children.At(cmprResult > 0);
      }
      Spot(Cells(), sentinel, p, t);
    }

    /** A node with an equal key has been found. */
    method Overwrite(node: Node<K, V>, key: K, el: V, replace: bool, ghost p: Path<Node<K, V>>,
                     ghost t: Tree<Node<K, V>>)
      requires Valid() && tree == Plug(p, t) && t.Fork? && node == t.node && node in repr && cmp(key, node.key) == 0
      requires AllBelow(cmp, key, Listed(Data(), LeftOf(p, t)))
      modifies node`key, node`el
      ensures Valid() && Contents() == Put(cmp, old(Contents()), Entry(key, el), replace) && node in Inorder(tree)
      ensures Lookup(cmp, old(Contents()), key).Some? && cmp(key, node.key) == 0
      ensures if replace then node.key == key && node.el == el
        else node.key == old(node.key) && node.el == old(node.el)
    {
      hide Plug, Inorder, Drawn, NoDup, Good, RedBlack, TotalPreorder, Ascending, Lookup, Listed, Before, After, Put,
        LeftOf, RightOf, Wired, AllBelow, Cells;
      ghost var d, e := Data(), Entry(key, el);
      InMiddle(p, t);
      OverwrittenOrder(cmp, d, p, t, e, replace);
      PutDropAscending(cmp, Contents(), e, replace);
      Reflexive(cmp, key);
      if replace {
        node.key := key;
        node.el := el;
        assert Data() == d[node := e];
      }
    }

    lemma InMiddle(p: Path<Node<K, V>>, t: Tree<Node<K, V>>)
      requires Wired() && tree == Plug(p, t) && t.Fork?
      ensures t.node in Inorder(tree) && NoDup(Inorder(tree))
    {
      OrderAt(p, t);
      assert t.node in [t.node];
    }

    // ---- erasure ----

    /** A red sibling turns black, the parent red, and the parent is rotated down. */
    method LowerParent(parent: Node<K, V>, sibling: Node<K, V>, dir: bool, ghost p: Path<Node<K, V>>,
                       ghost t: Tree<Node<K, V>>)
      requires Wired() && tree == Plug(p, t) && Short(p, t) && !IsRed(t) && p.Step? && IsRed(p.other)
      requires parent == p.node && dir == !p.dir && sibling == p.other.node
      modifies repr`parent, repr`children, repr`isRed, this`root, this`tree
      ensures Wired() && tree == Plug(Lowered(p), t) && Inorder(tree) == old(Inorder(tree))
    {
      hide Plug, Inorder, Drawn, NoDup, Good, PathGood, Short, Lowered, Rotated;
      LoweredShort(p, t);
      ForkedFacts(true, p.node, p.dir, t, p.other.(red := false));
      ForkedFacts(p.red, p.node, p.dir, t, p.other.(red := false));
      Paint(sibling, false, Step(p.up, p.node, p.red, !p.dir, t), p.other);
      Paint(parent, true, p.up, Forked(p.red, p.node, p.dir, t, p.other.(red := false)));
      Rotate(parent, !dir, p.up, Forked(true, p.node, p.dir, t, p.other.(red := false)));
    }

    /** The red near child of a black sibling rises over it. */
    method TurnSibling(sibling: Node<K, V>, dir: bool, ghost p: Path<Node<K, V>>, ghost t: Tree<Node<K, V>>)
      requires Wired() && tree == Plug(p, t) && Short(p, t) && !IsRed(t) && p.Step? && p.other.Fork? && !p.other.red
      requires dir == !p.dir && sibling == p.other.node && IsRed(p.other.Kid(p.dir)) && !IsRed(p.other.Kid(dir))
      modifies repr`parent, repr`children, repr`isRed, this`root, this`tree
      ensures Wired() && tree == Plug(NearUp(p), t) && Inorder(tree) == old(Inorder(tree))
    {
      hide Plug, Inorder, Drawn, NoDup, Good, PathGood, Short, NearUp, Rotated;
      EraseSpots(Cells(), sentinel, p, t);
      NearUpShort(p, t);
      ghost var far, near := p.other.Kid(dir), p.other.Kid(p.dir);
      ghost var q := Step(p.up, p.node, p.red, dir, t);
      Paint(sibling.children.At(!dir), false, Step(q, sibling, false, p.dir, far), near);
      ghost var near' := near.(red := false);
      Paint(sibling, true, q, Forked(false, sibling, dir, far, near'));
      Rotate(sibling, dir, q, Forked(true, sibling, dir, far, near'));
    }

    /** The sibling takes the place and colour of the parent. */
    method Borrow(parent: Node<K, V>, sibling: Node<K, V>, dir: bool, ghost p: Path<Node<K, V>>,
                  ghost t: Tree<Node<K, V>>)
      requires Wired() && tree == Plug(p, t) && Short(p, t) && !IsRed(t) && p.Step? && p.other.Fork? && !p.other.red
      requires parent == p.node && dir == !p.dir && sibling == p.other.node && IsRed(p.other.Kid(dir))
      modifies repr`parent, repr`children, repr`isRed, this`root, this`tree
      ensures Wired() && RedBlack(tree) && Inorder(tree) == old(Inorder(tree))
    {
      hide Plug, Inorder, Drawn, NoDup, Good, PathGood, Short, Borrowed, Rotated;
      EraseSpots(Cells(), sentinel, p, t);
      BorrowedDone(p, t);
      ghost var far, near, red := p.other.Kid(dir), p.other.Kid(p.dir), p.red;
      Paint(sibling, parent.isRed, Step(p.up, p.node, red, dir, t), p.other);
      Paint(parent, false, p.up, Forked(red, p.node, p.dir, t, p.other.(red := red)));
      Paint(sibling.children.At(dir), false, Step(Step(p.up, p.node, false, dir, t), sibling, red, dir, near), far);
      Rotate(parent, !dir, p.up, Forked(false, p.node, p.dir, t, Forked(red, sibling, dir, far.(red := false), near)));
    }

    /** Makes sure that the sibling of a short place is black. */
    method SettleSibling(parent: Node<K, V>, dir: bool, ghost p: Path<Node<K, V>>, ghost t: Tree<Node<K, V>>)
      returns (sibling: Node<K, V>, ghost q: Path<Node<K, V>>)
      requires Wired() && tree == Plug(p, t) && Short(p, t) && !IsRed(t) && p.Step? && p.other.Fork?
      requires parent == p.node && dir == !p.dir
      modifies repr`parent, repr`children, repr`isRed, this`root, this`tree
      ensures Wired() && tree == Plug(q, t) && Short(q, t) && Inorder(tree) == old(Inorder(tree))
      ensures q.Step? && q.node == parent && q.dir == p.dir && q.other.Fork? && !q.other.red && sibling == q.other.node
      ensures q == p || q.red
    {
      hide Plug, Inorder, Drawn, NoDup, Good, PathGood, Short;
      EraseSpots(Cells(), sentinel, p, t);
      sibling, q := parent.children.At(dir), p;
      if sibling.isRed {
        LoweredShort(p, t);
        LowerParent(parent, sibling, dir, p, t);
        q := Lowered(p);
        EraseSpots(Cells(), sentinel, q, t);
        sibling := parent.children.At(dir);
      }
    }

    /** The sibling, or its near child, gives a black node to the short place. */
    method Supply(parent: Node<K, V>, sibling: Node<K, V>, dir: bool, ghost p: Path<Node<K, V>>,
                  ghost t: Tree<Node<K, V>>)
      requires Wired() && tree == Plug(p, t) && Short(p, t) && !IsRed(t) && p.Step? && p.other.Fork? && !p.other.red
      requires parent == p.node && dir == !p.dir && sibling == p.other.node
      requires IsRed(p.other.left) || IsRed(p.other.right)
      modifies repr`parent, repr`children, repr`isRed, this`root, this`tree
      ensures Wired() && RedBlack(tree) && Inorder(tree) == old(Inorder(tree))
    {
      hide Plug, Inorder, Drawn, NoDup, Good, PathGood, Short, RedBlack;
      EraseSpots(Cells(), sentinel, p, t);
      var sib := sibling;
      ghost var q := p;
      if !sib.children.At(dir).isRed {
        NearUpShort(p, t);
        TurnSibling(sib, dir, p, t);
        q := NearUp(p);
        EraseSpots(Cells(), sentinel, q, t);
        sib := parent.children.At(dir);
      }
      Borrow(parent, sib, dir, q, t);
    }

    /** The place of `t`, with its pointer and its parent's, is one black node short. */
    ghost predicate Mending(node: Node<K, V>, parent: Node<K, V>, p: Path<Node<K, V>>, t: Tree<Node<K, V>>)
      reads this`repr, this`tree, this`root, sentinel`isRed, repr`parent, repr`children, repr`isRed, node`isRed
    {
      && Wired() && tree == Plug(p, t) && Short(p, t) && node == Root(t, sentinel) && parent == Owner(p, sentinel)
      && (node == root <==> p.Top?) && node.isRed == IsRed(t)
    }

    lemma StartsMending(node: Node<K, V>, parent: Node<K, V>, p: Path<Node<K, V>>, t: Tree<Node<K, V>>)
      requires Wired() && tree == Plug(p, t) && Short(p, t)
      requires node == Root(t, sentinel) && parent == Owner(p, sentinel)
      ensures Mending(node, parent, p, t)
    {
      hide Plug, Inorder, Drawn, NoDup, Good, PathGood, Short;
      EraseGuard(Cells(), sentinel, p, t);
    }

    /** One round of the erasure fix-up. */
    method Mend(node0: Node<K, V>, parent0: Node<K, V>, ghost p0: Path<Node<K, V>>, ghost t0: Tree<Node<K, V>>)
      returns (node: Node<K, V>, parent: Node<K, V>, ghost p: Path<Node<K, V>>, ghost t: Tree<Node<K, V>>)
      requires Mending(node0, parent0, p0, t0) && p0.Step? && !IsRed(t0)
      modifies repr`parent, repr`children, repr`isRed, this`root, this`tree
      ensures Mending(node, parent, p, t) && Inorder(tree) == old(Inorder(tree))
      ensures IsRed(t) || Depth(p) < Depth(p0)
    {
      hide Plug, Inorder, Drawn, NoDup, Good, PathGood, Short, RedBlack;
      node, parent, p, t := node0, parent0, p0, t0;
      ShortSibling(p, t);
      EraseSpots(Cells(), sentinel, p, t);
      var dir := node == parent.children.left;
      var sibling;
      sibling, p := SettleSibling(parent, dir, p, t);
      EraseSpots(Cells(), sentinel, p, t);
      if !sibling.children.left.isRed && !sibling.children.right.isRed {
        node, parent, p, t := PassUp(parent, sibling, p, t);
      } else {
        Supply(parent, sibling, dir, p, t);
        ShortTop(tree);
        node, parent, p, t := root, sentinel, Top, tree;
      }
      StartsMending(node, parent, p, t);
    }

    /** Restores the red-black conditions above a place that is one black node short. The place may be
        empty, and the sentinel does not know its parent. */
    method PostEraseFixup(node0: Node<K, V>, parent0: Node<K, V>,
                          ghost p0: Path<Node<K, V>>, ghost t0: Tree<Node<K, V>>)
      requires Wired() && tree == Plug(p0, t0) && Short(p0, t0)
      requires node0 == Root(t0, sentinel) && parent0 == Owner(p0, sentinel)
      modifies repr`parent, repr`children, repr`isRed, this`root, this`tree
      ensures Wired() && RedBlack(tree) && Inorder(tree) == old(Inorder(tree))
    {
      hide Plug, Inorder, Drawn, NoDup, Short, RedBlack;
      var node, parent := node0, parent0;
      ghost var p, t := p0, t0;
      StartsMending(node, parent, p, t);
      while node != root && !node.isRed
        invariant Mending(node, parent, p, t) && Inorder(tree) == old(Inorder(tree))
        decreases if IsRed(t) then 0 else 1 + Depth(p)
      {
        node, parent, p, t := Mend(node, parent, p, t);
      }
      ShortDone(p, t);
      EraseEnd(node, p, t);
    }

    /** The sibling turns red, and its parent is now the short place. */
    method PassUp(parent: Node<K, V>, sibling: Node<K, V>, ghost p: Path<Node<K, V>>, ghost t: Tree<Node<K, V>>)
      returns (node: Node<K, V>, up: Node<K, V>, ghost p': Path<Node<K, V>>, ghost t': Tree<Node<K, V>>)
      requires Wired() && tree == Plug(p, t) && Short(p, t) && !IsRed(t) && p.Step? && p.other.Fork? && !p.other.red
      requires parent == p.node && sibling == p.other.node && !IsRed(p.other.left) && !IsRed(p.other.right)
      modifies repr`isRed, this`tree
      ensures Wired() && tree == Plug(p', t') && Short(p', t') && Inorder(tree) == old(Inorder(tree))
      ensures node == Root(t', sentinel) && up == Owner(p', sentinel)
      ensures p' == p.up && Depth(p') < Depth(p) && IsRed(t') == p.red
    {
      hide Plug, Inorder, Drawn, NoDup, Good, PathGood, Short;
      PassedUp(p, t);
      ForkedFacts(p.red, p.node, p.dir, t, p.other.(red := true));
      Paint(sibling, true, Step(p.up, p.node, p.red, !p.dir, t), p.other);
      t' := Forked(p.red, p.node, p.dir, t, p.other.(red := true));
      p' := p.up;
      node := parent;
      EraseGuard(Cells(), sentinel, p', t');
      up := node.parent;
    }

    /** A place that is red or at the top is made up for by painting it black. */
    method EraseEnd(node: Node<K, V>, ghost p: Path<Node<K, V>>, ghost t: Tree<Node<K, V>>)
      requires Wired() && tree == Plug(p, t) && node == Root(t, sentinel)
      requires if t.Leaf? then RedBlack(Plug(p, t)) else RedBlack(Plug(p, t.(red := false)))
      modifies repr`isRed, this`tree
      ensures Wired() && RedBlack(tree) && Inorder(tree) == old(Inorder(tree))
    {
      hide Plug, Inorder, Drawn, NoDup, RedBlack;
      EraseGuard(Cells(), sentinel, p, t);
      if node != sentinel {
        Paint(node, false, p, t);
      }
    }

    /** The node to take out of the tree: the given one, if it has an empty side, or its successor. */
    method FindDetach(node: Node<K, V>, ghost p: Path<Node<K, V>>, ghost t: Tree<Node<K, V>>)
      returns (d: Node<K, V>, ghost q: Path<Node<K, V>>, ghost u: Tree<Node<K, V>>)
      requires Wired() && tree == Plug(p, t) && t.Fork? && node == t.node
      ensures tree == Plug(q, u) && u.Fork? && d == u.node && (u.left.Leaf? || u.right.Leaf?) && d in repr
      ensures if d == node then q == p && u == t else LeftOf(q, u) == LeftOf(p, t) + [node]
    {
      hide Plug, Inorder, Drawn, NoDup, Before, After, LeftOf;
      Spot(Cells(), sentinel, p, t);
      d, q, u := node, p, t;
      if node.children.left != sentinel && node.children.right != sentinel {
        KidSpots(Cells(), sentinel, p, t);
        GoesRight(p, t);
        q, u := Step(p, t.node, t.red, true, t.left), t.right;
        d := node.children.right;
        Spot(Cells(), sentinel, q, u);
        while d.children.left != sentinel
          invariant tree == Plug(q, u) && u.Fork? && d == u.node && d in repr && Before(q) == LeftOf(p, t) + [node]
          invariant d.children == Kids(Root(u.left, sentinel), Root(u.right, sentinel))
          decreases u
        {
          GoesLeft(q, u);
          q, u := Step(q, u.node, u.red, false, u.right), u.left;
          d := d.children.left;
          Spot(Cells(), sentinel, q, u);
        }
        KidSpots(Cells(), sentinel, q, u);
        GoesLeft(q, u);
        Longer(p, t, q, u);
      } else {
        KidSpots(Cells(), sentinel, p, t);
      }
    }

    /** A path that ends behind a node does not end at it. */
    lemma Longer(p: Path<Node<K, V>>, t: Tree<Node<K, V>>, q: Path<Node<K, V>>, u: Tree<Node<K, V>>)
      requires Wired() && tree == Plug(q, u) && t.Fork? && u.Fork? && Before(q) == LeftOf(p, t) + [t.node]
      ensures u.node != t.node
    {
      hide Plug, Drawn, NoDup, Before, After;
      PlugParts(q, u);
      RootIn(sentinel, u);
      assert t.node in [t.node];
      assert OnPath(q, t.node);
    }

    /** The node `d` leaves the tree, and its only child, if any, takes its place. */
    method Unhook(d: Node<K, V>, ghost q: Path<Node<K, V>>, ghost u: Tree<Node<K, V>>) returns (child: Node<K, V>)
      requires Wired() && tree == Plug(q, u) && u.Fork? && d == u.node && (u.left.Leaf? || u.right.Leaf?)
      modifies repr`parent, repr`children, this`root, this`tree
      ensures Wired() && tree == Plug(q, Detached(u)) && child == Root(Detached(u), sentinel)
      ensures Inorder(tree) == LeftOf(q, u) + RightOf(q, u) && d !in Inorder(tree)
      ensures d.parent == Owner(q, sentinel) && d.isRed == u.red
    {
      hide Plug, Inorder, Drawn, NoDup, Before, After, LeftOf, RightOf;
      ghost var h := Cells();
      UnhookSpots(h, sentinel, q, u);
      DetachedOrder(sentinel, q, u);
      child := Bypass(d, q.Step? && q.dir, Owner(q, sentinel), Root(Detached(u), sentinel));
      DetachWritten(h, Cells(), sentinel, q, u);
      tree := Plug(q, Detached(u));
    }

    /** The pointer writes of `Unhook`. */
    method Bypass(d: Node<K, V>, ghost side: bool, ghost o: Node<K, V>, ghost x: Node<K, V>) returns (child: Node<K, V>)
      requires Removable(Cells(), sentinel, side, d, o, x)
      modifies repr`parent, repr`children, this`root
      ensures var h, h' := old(Cells()), Cells();
        && SameBut(h, h', {x, o}) && (x != sentinel ==> h'[x] == h[x].(parent := o))
        && (o != sentinel ==> h'[o] == h[o].SetKid(side, x))
      ensures root == (if o == sentinel then x else old(root)) && child == x
    {
      var up := d.parent;
      child := d.children.At(d.children.left == sentinel);
      if child != sentinel {
        child.parent := up;
      }
      if up != sentinel {
        up.children := up.children.With(d == up.children.right, child);
      } else {
        root := child;
      }
    }

    /** The detached node `d` takes over the place, the links and the colour of `node`. */
    method Supplant(node: Node<K, V>, d: Node<K, V>, ghost p: Path<Node<K, V>>, ghost t: Tree<Node<K, V>>)
      requires Wired() && RedBlack(tree) && tree == Plug(p, t) && t.Fork? && node == t.node
      requires d in repr && d !in Inorder(tree)
      modifies repr`parent, repr`children, repr`isRed, this`root, this`tree
      ensures Wired() && RedBlack(tree) && Inorder(tree) == LeftOf(p, t) + [d] + RightOf(p, t)
    {
      hide Plug, Inorder, Drawn, NoDup, Before, After, LeftOf, RightOf, RedBlack;
      ghost var h := Cells();
      SupplantSpots(h, sentinel, p, t, d);
      SupplantedOrder(sentinel, p, t, d);
      SupplantedGood(p, t, d);
      TakeOver(node, d, p.Step? && p.dir, Owner(p, sentinel), Root(t.left, sentinel), Root(t.right, sentinel));
      SupplantWritten(h, Cells(), sentinel, p, t, d);
      tree := Plug(p, t.(node := d));
    }

    /** The pointer writes of `Supplant`. */
    method TakeOver(node: Node<K, V>, d: Node<K, V>, ghost side: bool, ghost o: Node<K, V>, ghost l: Node<K, V>,
                    ghost r: Node<K, V>)
      requires Replaceable(Cells(), sentinel, side, node, d, o, l, r)
      modifies repr`parent, repr`children, repr`isRed, this`root
      ensures var h, h' := old(Cells()), Cells();
        && SameBut(h, h', {d, l, r, o}) && h'[d] == h[node]
        && (l != sentinel ==> h'[l] == h[l].(parent := d)) && (r != sentinel ==> h'[r] == h[r].(parent := d))
        && (o != sentinel ==> h'[o] == h[o].SetKid(side, d))
      ensures root == if o == sentinel then d else old(root)
    {
      var up, kids := node.parent, node.children;
      d.parent := up;
      d.children := kids;
      if up != sentinel {
        up.children := up.children.With(up.children.right == node, d);
      } else {
        root := d;
      }
      if kids.left != sentinel {
        kids.left.parent := d;
      }
      if kids.right != sentinel {
        kids.right.parent := d;
      }
      d.isRed := node.isRed;
    }

    /** Takes a node out of the tree. Its successor, if need be, is moved into its place by its links, so
        every other node keeps its own key and element. */
    method EraseRaw(node: Node<K, V>)
      requires Valid() && node in Inorder(tree)
      modifies this`root, this`size, this`repr, this`tree, repr`parent, repr`children, repr`isRed
      ensures Valid() && Inorder(tree) == Without(old(Inorder(tree)), node) && repr == old(repr) - {node}
      ensures Contents() == Drop(cmp, old(Contents()), node.key)
    {
      hide Plug, Inorder, Drawn, NoDup, RedBlack, Listed, Ascending, Drop, TotalPreorder, Wired, Cells;
      ghost var d: map<Node<K, V>, Entry<K, V>>, o: seq<Node<K, V>> := Data(), Inorder(tree);
      Members(node);
      TakeOut(node);
      ErasedOrder<Node<K, V>, K, V>(cmp, d, o, node);
      PutDropAscending(cmp, Listed(d, o), d[node], true);
      Release(node);
      size := size - 1;
    }

    /** A node outside the tree is freed. */
    ghost method Release(node: Node<K, V>)
      requires Wired() && node !in Inorder(tree)
      modifies this`repr
      ensures Wired() && repr == old(repr) - {node} && Contents() == old(Contents())
    {
      hide Inorder, Drawn, NoDup, Listed;
      ghost var h, d := Cells(), Data();
      repr := repr - {node};
      Released(h, Cells(), sentinel, tree, node);
      ListedFrame(d, Data(), Inorder(tree));
    }

    lemma Members(node: Node<K, V>)
      requires Wired() && node in Inorder(tree)
      ensures node in repr && sentinel !in Inorder(tree) && NoDup(Inorder(tree))
      ensures forall n :: n in Inorder(tree) ==> n in repr
    {
      DrawnNodes(Cells(), sentinel, tree, sentinel);
    }

    /** The tree without the node, which is still in the footprint. */
    method TakeOut(node: Node<K, V>)
      requires Wired() && RedBlack(tree) && node in Inorder(tree)
      modifies this`root, this`tree, repr`parent, repr`children, repr`isRed
      ensures Wired() && RedBlack(tree) && Inorder(tree) == Without(old(Inorder(tree)), node)
      ensures node !in Inorder(tree)
    {
      hide Plug, Inorder, Drawn, NoDup, RedBlack, LeftOf, RightOf;
      ghost var p, t := Locate(tree, node);
      var d; ghost var q, u;
      d, q, u := FindDetach(node, p, t);
      OrderAt(q, u);
      DetachedGood(q, u);
      var child := Unhook(d, q, u);
      if !d.isRed {
        PostEraseFixup(child, d.parent, q, Detached(u));
      }
      if d != node {
        InSeq(LeftOf(p, t), node, RightOf(q, u));
        ghost var p', t' := Locate(tree, node);
        OrderAt(p', t');
        SuccessorTakesOver(LeftOf(p, t), node, d, RightOf(q, u), LeftOf(p', t'), RightOf(p', t'));
        Supplant(node, d, p', t');
      } else {
        WithoutAt(LeftOf(q, u), d, RightOf(q, u));
      }
      NotWithout(old(Inorder(tree)), node);
    }

    /** Erases the entry with an equal key, if there is one. */
    method Erase(key: K) returns (erased: bool)
      requires Valid()
      modifies this`root, this`size, this`repr, this`tree, repr`parent, repr`children, repr`isRed
      ensures Valid() && Contents() == Drop(cmp, old(Contents()), key) && repr <= old(repr)
      ensures erased <==> Lookup(cmp, old(Contents()), key) != None
    {
      hide *;
      var itr, _ := Get(key);
      Total();
      if itr.None? {
        DropNone(cmp, Contents(), key);
        return false;
      }
      DropEqual(cmp, Contents(), key, itr.value.key);
      EraseRaw(itr.value);
      erased := true;
    }

    lemma Total()
      requires Valid()
      ensures TotalPreorder(cmp)
    {}

    // ---- iteration ----

    method FirstOrLast(dir: bool) returns (itr: Itr<Node<K, V>>)
      requires Wired()
      ensures itr == Extreme(Inorder(tree), dir)
      ensures var o := Inorder(tree);
        itr == if o == [] then Bound(dir) else At(if dir then o[0] else o[|o| - 1])
    {
      hide Plug, Inorder, Drawn, NoDup;
      PlugTop(tree);
      if root == sentinel {
        EmptyTree();
        return Bound(dir);
      }
      itr := Furthest(root, dir, Top, tree);
    }

    lemma EmptyTree()
      requires Wired() && root == sentinel
      ensures tree == Leaf && Inorder(tree) == []
    {}

    /** Goes down on one side as far as possible. */
    method Furthest(node0: Node<K, V>, dir: bool, ghost p0: Path<Node<K, V>>, ghost t0: Tree<Node<K, V>>)
      returns (itr: Itr<Node<K, V>>)
      requires Wired() && tree == Plug(p0, t0) && node0 == Root(t0, sentinel) && node0 != sentinel
      ensures itr == Extreme(Inorder(t0), dir)
    {
      hide Plug, Inorder, Drawn, NoDup, Extreme;
      var node := node0;
      ghost var p, t := p0, t0;
      Spot(Cells(), sentinel, p, t);
      while node.children.At(!dir) != sentinel
        invariant tree == Plug(p, t) && t.Fork? && node == t.node && node in repr
        invariant node.children == Kids(Root(t.left, sentinel), Root(t.right, sentinel))
        invariant Extreme(Inorder(t), dir) == Extreme(Inorder(t0), dir)
        decreases t
      {
        ExtremeStep(t, dir);
        Down(p, t, !dir);
        p, t := Step(p, t.node, t.red, !dir, t.Kid(dir)), t.Kid(!dir);
        node := node.children.At(!dir);
        Spot(Cells(), sentinel, p, t);
      }
      KidSpots(Cells(), sentinel, p, t);
      ExtremeStep(t, dir);
      itr := At(node);
    }

    /** The next iterator in a direction; an iterator at that end already has no next one. */
    method Iterate(itr: Itr<Node<K, V>>, dir: bool) returns (next: Itr<Node<K, V>>)
      requires Wired() && itr != Bound(dir) && (itr.At? ==> itr.node in Inorder(tree))
      ensures next == if itr.Bound? then Extreme(Inorder(tree), dir) else Neighbor(Inorder(tree), itr.node, dir)
      ensures var o := Inorder(tree);
        && (itr.Bound? ==> next == if o == [] then Bound(dir) else At(if dir then o[0] else o[|o| - 1]))
        && (itr.At? ==> forall i {:trigger o[i]} :: 0 <= i < |o| && o[i] == itr.node ==>
              next == if dir then (if i + 1 < |o| then At(o[i + 1]) else Bound(true))
                      else if i > 0 then At(o[i - 1]) else Bound(false))
    {
      hide Plug, Inorder, Drawn, NoDup, Extreme, Neighbor, Side;
      if itr == Bound(!dir) {
        next := FirstOrLast(dir);
        return;
      }
      var node := itr.node;
      NextInTree(node, dir);
      ghost var p, t := Locate(tree, node);
      NeighborSide(p, t, dir);
      Spot(Cells(), sentinel, p, t);
      KidSpots(Cells(), sentinel, p, t);
      if node.children.At(dir) != sentinel {
        Down(p, t, dir);
        next := Furthest(node.children.At(dir), dir, Step(p, t.node, t.red, dir, t.Kid(!dir)), t.Kid(dir));
        return;
      }
      ghost var side := Side(p, dir);
      while node.parent != sentinel
        invariant tree == Plug(p, t) && t.Fork? && node == t.node && node in repr && node.parent == Owner(p, sentinel)
        invariant Side(p, dir) == side
        decreases Depth(p)
      {
        Climb(p, t, dir);
        if node.parent.children.At(!dir) == node {
          return At(node.parent);
        }
        node := node.parent;
        PlugStep(p, t);
        p, t := p.up, Forked(p.red, p.node, p.dir, t, p.other);
        Spot(Cells(), sentinel, p, t);
      }
      Spot(Cells(), sentinel, p, t);
      SideStep(p, dir);
      next := Bound(dir);
    }

    lemma NextInTree(node: Node<K, V>, dir: bool)
      requires Wired() && node in Inorder(tree)
      ensures var o := Inorder(tree);
        forall i {:trigger o[i]} :: 0 <= i < |o| && o[i] == node ==>
          Neighbor(o, node, dir) == if dir then (if i + 1 < |o| then At(o[i + 1]) else Bound(true))
                                    else if i > 0 then At(o[i - 1]) else Bound(false)
    {
      NextTo<Node<K, V>>(Inorder(tree), node, dir);
    }

    /** One step up. */
    lemma Climb(p: Path<Node<K, V>>, t: Tree<Node<K, V>>, dir: bool)
      requires Wired() && tree == Plug(p, t) && t.Fork? && Owner(p, sentinel) != sentinel
      ensures p.Step? && p.node in repr && Depth(p.up) < Depth(p) && Forked(p.red, p.node, p.dir, t, p.other).Fork?
      ensures p.node.children.At(!dir) == t.node <==> p.dir != dir
      ensures Forked(p.red, p.node, p.dir, t, p.other).node == p.node
      ensures if p.dir != dir then Extreme(Side(p, dir), dir) == At(p.node) else Side(p.up, dir) == Side(p, dir)
    {
      hide Plug, Inorder, Drawn, NoDup, OnPath;
      Spot(Cells(), sentinel, p, t);
      StepParts(p, t);
      RootIn(sentinel, t);
      RootIn(sentinel, p.other);
      SideStep(p, dir);
    }

    /** Erases the node of an iterator and returns the next one, which stays valid. */
    method EraseItr(itr: Itr<Node<K, V>>) returns (next: Itr<Node<K, V>>)
      requires Valid() && itr.At? && itr.node in Inorder(tree)
      modifies this`root, this`size, this`repr, this`tree, repr`parent, repr`children, repr`isRed
      ensures Valid() && Inorder(tree) == Without(old(Inorder(tree)), itr.node) && repr == old(repr) - {itr.node}
      ensures Contents() == Drop(cmp, old(Contents()), itr.node.key)
      ensures next == Neighbor(old(Inorder(tree)), itr.node, true)
      ensures var o := old(Inorder(tree));
        forall i {:trigger o[i]} :: 0 <= i < |o| && o[i] == itr.node ==>
          next == if i + 1 < |o| then At(o[i + 1]) else Bound(true)
      ensures next.At? ==> next.node in Inorder(tree) && next.node in repr
    {
      hide Plug, Inorder, Drawn, NoDup, Neighbor, RedBlack, Listed, Ascending, Drop, TotalPreorder, Without;
      next := Iterate(itr, true);
      Members(itr.node);
      NeighborStays(Inorder(tree), itr.node);
      EraseRaw(itr.node);
      if next.At? { Members(next.node); }
    }
  }
}
