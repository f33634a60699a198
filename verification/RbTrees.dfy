/** Red-black trees as values, and how a heap of nodes with parent and child pointers draws them. */
module RbTrees {
  import opened Words

  // ---- trees and paths ----

  datatype Tree<N> = Leaf | Fork(red: bool, left: Tree<N>, node: N, right: Tree<N>) {
    function Kid(dir: bool): Tree<N>
      requires Fork?
    {
      if dir then right else left
    }
  }

  /** The way from the root to a place in the tree; the place is on side `dir` of `node`. */
  datatype Path<N> = Top | Step(up: Path<N>, node: N, red: bool, dir: bool, other: Tree<N>)

  /** A fork with `x` on side `dir` and `y` on the other. */
  function Forked<N>(red: bool, n: N, dir: bool, x: Tree<N>, y: Tree<N>): Tree<N> {
    if dir then Fork(red, y, n, x) else Fork(red, x, n, y)
  }

  function Plug<N>(p: Path<N>, t: Tree<N>): Tree<N> {
    match p
    case Top => t
    case Step(up, node, red, dir, other) => Plug(up, Forked(red, node, dir, t, other))
  }

  function Inorder<N>(t: Tree<N>): seq<N> {
    match t
    case Leaf => []
    case Fork(_, left, node, right) => Inorder(left) + [node] + Inorder(right)
  }

  function Before<N>(p: Path<N>): seq<N> {
    match p
    case Top => []
    case Step(up, node, _, dir, other) => if dir then Before(up) + (Inorder(other) + [node]) else Before(up)
  }

  function After<N>(p: Path<N>): seq<N> {
    match p
    case Top => []
    case Step(up, node, _, dir, other) => if dir then After(up) else ([node] + Inorder(other)) + After(up)
  }

  lemma {:induction false} InorderPlug<N>(p: Path<N>, t: Tree<N>)
    ensures Inorder(Plug(p, t)) == Before(p) + Inorder(t) + After(p)
  {
    match p
    case Top =>
    case Step(up, node, red, dir, other) =>
      InorderPlug(up, Forked(red, node, dir, t, other));
      InorderStep(p, t);
  }

  lemma InorderStep<N>(p: Path<N>, t: Tree<N>)
    requires p.Step?
    ensures Before(p.up) + Inorder(Forked(p.red, p.node, p.dir, t, p.other)) + After(p.up)
            == Before(p) + Inorder(t) + After(p)
  {
    hide Plug;
    var b, c, o := Before(p.up), After(p.up), Inorder(p.other);
    if p.dir {
      Regroup(b, o + [p.node], Inorder(t), c);
    } else {
      Regroup'(b, Inorder(t), [p.node] + o, c);
      assert Inorder(t) + [p.node] + o == Inorder(t) + ([p.node] + o);
    }
  }

  lemma Regroup<N>(a: seq<N>, b: seq<N>, c: seq<N>, d: seq<N>)
    ensures a + (b + c) + d == (a + b) + c + d
  {}

  lemma Regroup'<N>(a: seq<N>, b: seq<N>, c: seq<N>, d: seq<N>)
    ensures a + (b + c) + d == a + b + (c + d)
  {}

  ghost predicate NoDup<N>(s: seq<N>) {
    forall i, j :: 0 <= i < j < |s| ==> s[i] != s[j]
  }

  lemma Separate<N>(a: seq<N>, b: seq<N>, c: seq<N>)
    requires NoDup(a + b + c)
    ensures NoDup(a) && NoDup(b) && NoDup(c)
    ensures forall n :: n in b ==> n !in a && n !in c
    ensures forall n :: n in a ==> n !in c
  {
    var s := a + b + c;
    assert forall i :: 0 <= i < |a| ==> a[i] == s[i];
    assert forall i :: 0 <= i < |b| ==> b[i] == s[|a| + i];
    assert forall i :: 0 <= i < |c| ==> c[i] == s[|a| + |b| + i];
  }

  /** The parts of a tree of distinct nodes have no node in common. */
  lemma ForkParts<N>(t: Tree<N>)
    requires t.Fork? && NoDup(Inorder(t))
    ensures NoDup(Inorder(t.left)) && NoDup(Inorder(t.right))
    ensures t.node !in Inorder(t.left) && t.node !in Inorder(t.right)
    ensures forall n :: n in Inorder(t.left) ==> n !in Inorder(t.right)
    ensures forall n :: n in Inorder(t) <==> n == t.node || n in Inorder(t.left) || n in Inorder(t.right)
  {
    Separate(Inorder(t.left), [t.node], Inorder(t.right));
    assert t.node in [t.node];
  }

  ghost predicate OnPath<N>(p: Path<N>, n: N) {
    n in Before(p) || n in After(p)
  }

  lemma PlugParts<N>(p: Path<N>, t: Tree<N>)
    requires NoDup(Inorder(Plug(p, t)))
    ensures NoDup(Inorder(t))
    ensures forall n :: n in Inorder(t) ==> !OnPath(p, n)
    ensures forall n :: n in Inorder(Plug(p, t)) <==> n in Inorder(t) || OnPath(p, n)
  {
    InorderPlug(p, t);
    Separate(Before(p), Inorder(t), After(p));
  }

  /** The nodes of a step: the node itself, its other subtree, and the path above. */
  lemma StepParts<N>(p: Path<N>, t: Tree<N>)
    requires p.Step? && NoDup(Inorder(Plug(p, t)))
    ensures OnPath(p, p.node) && p.node !in Inorder(t) && p.node !in Inorder(p.other) && !OnPath(p.up, p.node)
    ensures forall n :: n in Inorder(p.other) ==> OnPath(p, n) && !OnPath(p.up, n) && n !in Inorder(t)
    ensures forall n :: OnPath(p.up, n) ==> OnPath(p, n) && n !in Inorder(t)
    ensures forall n :: OnPath(p, n) <==> n == p.node || n in Inorder(p.other) || OnPath(p.up, n)
    ensures NoDup(Inorder(p.other))
  {
    var f := Forked(p.red, p.node, p.dir, t, p.other);
    PlugParts(p.up, f);
    PlugParts(p, t);
    ForkParts(f);
  }

  // ---- the red-black conditions ----

  predicate IsRed<N>(t: Tree<N>) {
    t.Fork? && t.red
  }

  /** The number of black nodes down the left spine. */
  function Height<N>(t: Tree<N>): nat {
    match t
    case Leaf => 0
    case Fork(red, left, _, _) => Height(left) + if red then 0 else 1
  }

  /** No red node has a red child, and both sides of every node have the same black height. */
  ghost predicate Good<N>(t: Tree<N>) {
    match t
    case Leaf => true
    case Fork(red, left, _, right) =>
      Good(left) && Good(right) && Height(left) == Height(right) && (red ==> !IsRed(left) && !IsRed(right))
  }

  ghost predicate RedBlack<N>(t: Tree<N>) {
    Good(t) && !IsRed(t)
  }

  predicate RedStep<N>(p: Path<N>) {
    p.Step? && p.red
  }

  /** The number of nodes on the longest way down. */
  function Levels<N>(t: Tree<N>): nat {
    match t
    case Leaf => 0
    case Fork(_, left, _, right) => 1 + if Levels(left) > Levels(right) then Levels(left) else Levels(right)
  }

  lemma {:induction false} LevelsAndNodes<N>(t: Tree<N>)
    requires Good(t)
    ensures Levels(t) <= 2 * Height(t) + (if IsRed(t) then 1 else 0) && Pow2(Height(t)) <= |Inorder(t)| + 1
  {
    hide Pow2;
    Pow2Step(0);
    if t.Fork? {
      LevelsAndNodes(t.left);
      LevelsAndNodes(t.right);
      Pow2Step(Height(t.left));
    }
  }

  lemma Fourfold(q: nat)
    ensures 2 * q * (2 * q) == 4 * (q * q) && q * q >= 0
  {}

  lemma {:induction false} Pow2Twice(l: nat, h: nat)
    requires l <= 2 * h
    ensures Pow2(l) <= Pow2(h) * Pow2(h)
    decreases h
  {
    hide Pow2;
    Pow2Step(0);
    if h > 0 {
      var l' := if l < 2 then 0 else l - 2;
      Pow2Twice(l', h - 1);
      Pow2Step(h - 1);
      Pow2Step(l');
      Pow2Step(l' + 1);
      Fourfold(Pow2(h - 1));
    }
  }

  /** A red-black tree of `n` nodes is at most twice the logarithm of `n + 1` high. */
  lemma Shallow<N>(t: Tree<N>)
    requires RedBlack(t)
    ensures Pow2(Levels(t)) <= (|Inorder(t)| + 1) * (|Inorder(t)| + 1)
  {
    hide Pow2, Good, Inorder, Levels, Height;
    LevelsAndNodes(t);
    Pow2Twice(Levels(t), Height(t));
    Squares(Pow2(Height(t)), |Inorder(t)| + 1);
  }

  lemma Squares(a: nat, b: nat)
    requires a <= b
    ensures a * a <= b * b
  {
    assert b * b == a * a + (b - a) * (b + a);
  }

  lemma {:induction false} Pow2Grows(a: nat, b: nat)
    requires a <= b
    ensures Pow2(a) <= Pow2(b)
    decreases b
  {
    hide Pow2;
    if a < b {
      Pow2Grows(a, b - 1);
      Pow2Step(b - 1);
    }
  }

  /** The path meets the conditions for a subtree of black height `k`. */
  ghost predicate PathGood<N>(p: Path<N>, k: nat) {
    match p
    case Top => true
    case Step(up, _, red, _, other) =>
      && Good(other) && Height(other) == k && (red ==> !IsRed(other) && up.Step? && !up.red)
      && PathGood(up, k + if red then 0 else 1)
  }

  /** A subtree may be put at the end of the path: a red one only under a black node. */
  ghost predicate Joint<N>(p: Path<N>, t: Tree<N>) {
    IsRed(t) ==> p.Step? && !p.red
  }

  lemma {:induction false} PlugGood<N>(p: Path<N>, t: Tree<N>)
    ensures RedBlack(Plug(p, t)) <==> PathGood(p, Height(t)) && Good(t) && Joint(p, t)
  {
    match p
    case Top =>
    case Step(up, node, red, dir, other) =>
      PlugGood(up, Forked(red, node, dir, t, other));
  }

  // ---- drawings ----

  /** The two child pointers of a node, indexed by side. */
  datatype Kids<N> = Kids(left: N, right: N) {
    function At(dir: bool): N {
      if dir then right else left
    }

    function With(dir: bool, n: N): Kids<N> {
      if dir then Kids(left, n) else Kids(n, right)
    }
  }

  datatype Cell<N> = Cell(parent: N, kids: Kids<N>, red: bool) {
    function SetKid(dir: bool, n: N): Cell<N> {
      this.(kids := kids.With(dir, n))
    }
  }

  type Heap<N> = map<N, Cell<N>>

  /** The pointer that stands for a tree; `s` is the sentinel. */
  function Root<N>(t: Tree<N>, s: N): N {
    if t.Leaf? then s else t.node
  }

  ghost predicate Drawn<N>(h: Heap<N>, s: N, t: Tree<N>, parent: N) {
    match t
    case Leaf => true
    case Fork(red, left, node, right) =>
      && node in h && node != s && h[node] == Cell(parent, Kids(Root(left, s), Root(right, s)), red)
      && Drawn(h, s, left, node) && Drawn(h, s, right, node)
  }

  /** The node that a tree at the end of the path has as its parent. */
  function Owner<N>(p: Path<N>, s: N): N {
    if p.Top? then s else p.node
  }

  ghost predicate PathDrawn<N>(h: Heap<N>, s: N, p: Path<N>, hole: N) {
    match p
    case Top => true
    case Step(up, node, red, dir, other) =>
      && node in h && node != s
      && h[node] == Cell(Owner(up, s), Kids(Root(other, s), Root(other, s)), red).SetKid(dir, hole)
      && Drawn(h, s, other, node) && PathDrawn(h, s, up, node)
  }

  lemma {:induction false} DrawnPlug<N>(h: Heap<N>, s: N, p: Path<N>, t: Tree<N>)
    ensures Drawn(h, s, Plug(p, t), s) <==> PathDrawn(h, s, p, Root(t, s)) && Drawn(h, s, t, Owner(p, s))
  {
    match p
    case Top =>
    case Step(up, node, red, dir, other) =>
      DrawnPlug(h, s, up, Forked(red, node, dir, t, other));
  }

  lemma {:induction false} DrawnFrame<N>(h: Heap<N>, h': Heap<N>, s: N, t: Tree<N>, parent: N)
    requires Drawn(h, s, t, parent)
    requires forall n :: n in Inorder(t) && n in h ==> n in h' && h'[n] == h[n]
    ensures Drawn(h', s, t, parent)
  {
    match t
    case Leaf =>
    case Fork(_, left, node, right) =>
      assert node in Inorder(t);
      DrawnFrame(h, h', s, left, node);
      DrawnFrame(h, h', s, right, node);
  }

  /** Only the root of a tree knows its parent. */
  lemma Reparent<N>(h: Heap<N>, h': Heap<N>, s: N, t: Tree<N>, parent: N, parent': N)
    requires Drawn(h, s, t, parent) && NoDup(Inorder(t))
    requires t.Fork? ==> t.node in h' && h'[t.node] == h[t.node].(parent := parent')
    requires forall n :: n in Inorder(t) && n in h && n != t.node ==> n in h' && h'[n] == h[n]
    ensures Drawn(h', s, t, parent')
  {
    if t.Fork? {
      ForkParts(t);
      DrawnFrame(h, h', s, t.left, t.node);
      DrawnFrame(h, h', s, t.right, t.node);
    }
  }

  lemma {:induction false} PathFrame<N>(h: Heap<N>, h': Heap<N>, s: N, p: Path<N>, hole: N)
    requires PathDrawn(h, s, p, hole)
    requires forall n :: OnPath(p, n) && n in h ==> n in h' && h'[n] == h[n]
    ensures PathDrawn(h', s, p, hole)
  {
    match p
    case Top =>
    case Step(up, node, red, dir, other) =>
      assert OnPath(p, node);
      DrawnFrame(h, h', s, other, node);
      PathFrame(h, h', s, up, node);
  }

  /** Only the last node of a path knows what hangs from it. */
  lemma Rehang<N>(h: Heap<N>, h': Heap<N>, s: N, p: Path<N>, t: Tree<N>, hole: N)
    requires PathDrawn(h, s, p, Root(t, s)) && NoDup(Inorder(Plug(p, t)))
    requires p.Step? ==> p.node in h' && h'[p.node] == h[p.node].SetKid(p.dir, hole)
    requires forall n :: OnPath(p, n) && n in h && n != Owner(p, s) ==> n in h' && h'[n] == h[n]
    ensures PathDrawn(h', s, p, hole)
  {
    if p.Step? {
      StepParts(p, t);
      DrawnFrame(h, h', s, p.other, p.node);
      PathFrame(h, h', s, p.up, p.node);
    }
  }

  // ---- places ----

  /** What the heap says around the place of `t` in a drawn tree. */
  lemma Spot<N>(h: Heap<N>, s: N, p: Path<N>, t: Tree<N>)
    requires Drawn(h, s, Plug(p, t), s) && NoDup(Inorder(Plug(p, t)))
    ensures t.Fork? ==>
      t.node in h && t.node != s && h[t.node] == Cell(Owner(p, s), Kids(Root(t.left, s), Root(t.right, s)), t.red)
    ensures p.Step? ==>
      p.node in h && p.node != s && p.node !in Inorder(t) && p.node !in Inorder(p.other)
      && h[p.node] == Cell(Owner(p.up, s), Kids(Root(p.other, s), Root(p.other, s)), p.red).SetKid(p.dir, Root(t, s))
    ensures Root(t, s) in Inorder(t) + [s]
  {
    DrawnPlug(h, s, p, t);
    if p.Step? { StepParts(p, t); }
  }

  /** The root of the whole tree is at the top of the path, whatever hangs from its end. */
  lemma {:induction false} RootOfPlug<N>(h: Heap<N>, s: N, p: Path<N>, t: Tree<N>)
    requires PathDrawn(h, s, p, Root(t, s)) && NoDup(Inorder(Plug(p, t)))
    ensures if p.Top? then Root(Plug(p, t), s) == Root(t, s)
      else OnPath(p, Root(Plug(p, t), s)) && Root(Plug(p, t), s) != s && Root(Plug(p, t), s) !in Inorder(t)
  {
    if p.Step? {
      StepParts(p, t);
      RootOfPlug(h, s, p.up, Forked(p.red, p.node, p.dir, t, p.other));
    }
  }

  lemma {:induction false} SameRoot<N>(s: N, p: Path<N>, t: Tree<N>, t': Tree<N>)
    ensures p.Step? || Root(t, s) == Root(t', s) ==> Root(Plug(p, t), s) == Root(Plug(p, t'), s)
    ensures p.Top? ==> Root(Plug(p, t'), s) == Root(t', s)
  {
    if p.Step? {
      SameRoot(s, p.up, Forked(p.red, p.node, p.dir, t, p.other), Forked(p.red, p.node, p.dir, t', p.other));
    }
  }

  /** Everything in a drawn tree is in the heap, and nothing is the sentinel. */
  lemma {:induction false} DrawnNodes<N>(h: Heap<N>, s: N, t: Tree<N>, parent: N)
    requires Drawn(h, s, t, parent)
    ensures forall n :: n in Inorder(t) ==> n in h && n != s
  {
    if t.Fork? {
      DrawnNodes(h, s, t.left, t.node);
      DrawnNodes(h, s, t.right, t.node);
    }
  }

  // ---- what each write keeps ----

  ghost predicate SameBut<N>(h: Heap<N>, h': Heap<N>, changed: set<N>) {
    forall n :: n in h && n !in changed ==> n in h' && h'[n] == h[n]
  }

  /** A node changes its colour. */
  lemma PaintWritten<N>(h: Heap<N>, h': Heap<N>, s: N, p: Path<N>, t: Tree<N>, red: bool)
    requires Drawn(h, s, Plug(p, t), s) && NoDup(Inorder(Plug(p, t))) && t.Fork?
    requires t.node in h && t.node in h' && h'[t.node] == h[t.node].(red := red) && SameBut(h, h', {t.node})
    ensures Drawn(h', s, Plug(p, t.(red := red)), s)
  {
    hide Plug, Inorder, OnPath;
    DrawnPlug(h, s, p, t);
    DrawnPlug(h', s, p, t.(red := red));
    PlugParts(p, t);
    ForkParts(t);
    PathFrame(h, h', s, p, t.node);
    DrawnFrame(h, h', s, t.left, t.node);
    DrawnFrame(h, h', s, t.right, t.node);
  }

  /** The tree after a rotation of its root towards `dir`: the child on the other side comes up. */
  function Rotated<N>(t: Tree<N>, dir: bool): Tree<N>
    requires t.Fork? && t.Kid(!dir).Fork?
  {
    var c := t.Kid(!dir);
    Forked(c.red, c.node, dir, Forked(t.red, t.node, dir, t.Kid(dir), c.Kid(dir)), c.Kid(!dir))
  }

  lemma RotatedInorder<N>(t: Tree<N>, dir: bool)
    requires t.Fork? && t.Kid(!dir).Fork?
    ensures Inorder(Rotated(t, dir)) == Inorder(t)
  {
    var c := t.Kid(!dir);
    if dir {
      assert Inorder(t) == Inorder(c.left) + [c.node] + Inorder(c.right) + [t.node] + Inorder(t.right);
    } else {
      assert Inorder(t) == Inorder(t.left) + [t.node] + (Inorder(c.left) + [c.node] + Inorder(c.right));
    }
  }

  /** The pointer writes of a rotation: `c` rises over `n`, `g` changes from `c` to `n`, and `o`, above
      them, now points to `c` on side `side`. */
  ghost predicate Turned<N>(h: Heap<N>, h': Heap<N>, s: N, dir: bool, side: bool, n: N, c: N, g: N, o: N) {
    && SameBut(h, h', {n, c, g, o}) && n in h && c in h && n in h' && c in h'
    && h'[n] == h[n].SetKid(!dir, g).(parent := c)
    && h'[c] == h[c].SetKid(dir, n).(parent := o)
    && (g != s ==> g in h && g in h' && h'[g] == h[g].(parent := n))
    && (o != s ==> o in h && o in h' && h'[o] == h[o].SetKid(side, c))
  }

  lemma RotateWritten<N>(h: Heap<N>, h': Heap<N>, s: N, p: Path<N>, t: Tree<N>, dir: bool)
    requires Drawn(h, s, Plug(p, t), s) && NoDup(Inorder(Plug(p, t))) && t.Fork? && t.Kid(!dir).Fork?
    requires Turned(h, h', s, dir, p.Step? && p.dir, t.node, t.Kid(!dir).node, Root(t.Kid(!dir).Kid(dir), s),
                    Owner(p, s))
    ensures Drawn(h', s, Plug(p, Rotated(t, dir)), s)
  {
    hide Plug, Inorder, OnPath;
    var c := t.Kid(!dir);
    DrawnPlug(h, s, p, t);
    DrawnPlug(h', s, p, Rotated(t, dir));
    PlugParts(p, t);
    ForkParts(t);
    ForkParts(c);
    DrawnNodes(h, s, Plug(p, t), s);
    RootIn(s, c.Kid(dir));
    OwnerOn(p, t, s);
    Spot(h, s, p, t);
    DrawnFrame(h, h', s, t.Kid(dir), t.node);
    DrawnFrame(h, h', s, c.Kid(!dir), c.node);
    Reparent(h, h', s, c.Kid(dir), c.node, t.node);
    Rehang(h, h', s, p, t, c.node);
  }

  lemma RootIn<N>(s: N, t: Tree<N>)
    ensures t.Fork? ==> t.node in Inorder(t) && Root(t, s) == t.node
    ensures t.Leaf? ==> Inorder(t) == [] && Root(t, s) == s
  {}

  lemma OwnerOn<N>(p: Path<N>, t: Tree<N>, s: N)
    requires NoDup(Inorder(Plug(p, t)))
    ensures p.Step? ==> Owner(p, s) == p.node && OnPath(p, p.node) && p.node !in Inorder(t)
    ensures p.Top? ==> Owner(p, s) == s
  {
    if p.Step? { StepParts(p, t); }
  }

  lemma AttachWritten<N>(h: Heap<N>, h': Heap<N>, s: N, p: Path<N>, n: N)
    requires Drawn(h, s, Plug(p, Leaf), s) && NoDup(Inorder(Plug(p, Leaf)))
    requires n !in Inorder(Plug(p, Leaf)) && n != s && n in h' && h'[n] == Cell(Owner(p, s), Kids(s, s), true)
    requires SameBut(h, h', {n, Owner(p, s)})
    requires p.Step? ==> p.node in h && p.node in h' && h'[p.node] == h[p.node].SetKid(p.dir, n)
    ensures Drawn(h', s, Plug(p, Fork(true, Leaf, n, Leaf)), s)
  {
    hide Plug, Inorder, OnPath;
    DrawnPlug(h, s, p, Leaf);
    DrawnPlug(h', s, p, Fork(true, Leaf, n, Leaf));
    PlugParts(p, Leaf);
    Rehang(h, h', s, p, Leaf, n);
  }

  /** A node with at most one child gives its place to that child. */
  function Detached<N>(t: Tree<N>): Tree<N>
    requires t.Fork?
  {
    t.Kid(t.left.Leaf?)
  }

  lemma DetachWritten<N>(h: Heap<N>, h': Heap<N>, s: N, p: Path<N>, t: Tree<N>)
    requires Drawn(h, s, Plug(p, t), s) && NoDup(Inorder(Plug(p, t))) && t.Fork? && (t.left.Leaf? || t.right.Leaf?)
    requires var x := Detached(t);
      && SameBut(h, h', {Root(x, s), Owner(p, s)})
      && (x.Fork? ==> x.node in h && x.node in h' && h'[x.node] == h[x.node].(parent := Owner(p, s)))
      && (p.Step? ==> p.node in h && p.node in h' && h'[p.node] == h[p.node].SetKid(p.dir, Root(x, s)))
    ensures Drawn(h', s, Plug(p, Detached(t)), s)
  {
    hide Plug, Inorder, OnPath;
    var x := Detached(t);
    DrawnPlug(h, s, p, t);
    DrawnPlug(h', s, p, x);
    PlugParts(p, t);
    ForkParts(t);
    DrawnNodes(h, s, Plug(p, t), s);
    OwnerOn(p, t, s);
    RootIn(s, x);
    Reparent(h, h', s, x, t.node, Owner(p, s));
    Rehang(h, h', s, p, t, Root(x, s));
  }

  /** The node `d` takes the place of the root of `t`. */
  lemma SupplantWritten<N>(h: Heap<N>, h': Heap<N>, s: N, p: Path<N>, t: Tree<N>, d: N)
    requires Drawn(h, s, Plug(p, t), s) && NoDup(Inorder(Plug(p, t))) && t.Fork?
    requires d !in Inorder(Plug(p, t)) && d != s && t.node in h && d in h' && h'[d] == h[t.node]
    requires SameBut(h, h', {d, Root(t.left, s), Root(t.right, s), Owner(p, s)})
    requires t.left.Fork? ==>
      t.left.node in h && t.left.node in h' && h'[t.left.node] == h[t.left.node].(parent := d)
    requires t.right.Fork? ==>
      t.right.node in h && t.right.node in h' && h'[t.right.node] == h[t.right.node].(parent := d)
    requires p.Step? ==> p.node in h && p.node in h' && h'[p.node] == h[p.node].SetKid(p.dir, d)
    ensures Drawn(h', s, Plug(p, t.(node := d)), s)
  {
    hide Plug, Inorder, OnPath;
    DrawnPlug(h, s, p, t);
    DrawnPlug(h', s, p, t.(node := d));
    PlugParts(p, t);
    ForkParts(t);
    DrawnNodes(h, s, Plug(p, t), s);
    OwnerOn(p, t, s);
    RootIn(s, t.left);
    RootIn(s, t.right);
    Reparent(h, h', s, t.left, t.node, d);
    Reparent(h, h', s, t.right, t.node, d);
    Rehang(h, h', s, p, t, d);
  }

  lemma PaintKeeps<N>(s: N, p: Path<N>, t: Tree<N>, red: bool)
    requires t.Fork?
    ensures Inorder(Plug(p, t.(red := red))) == Inorder(Plug(p, t))
    ensures Root(Plug(p, t.(red := red)), s) == Root(Plug(p, t), s)
  {
    InorderPlug(p, t);
    InorderPlug(p, t.(red := red));
    SameRoot(s, p, t, t.(red := red));
  }

  lemma RotateKeeps<N>(s: N, p: Path<N>, t: Tree<N>, dir: bool)
    requires t.Fork? && t.Kid(!dir).Fork?
    ensures Inorder(Plug(p, Rotated(t, dir))) == Inorder(Plug(p, t))
    ensures p.Step? ==> Root(Plug(p, Rotated(t, dir)), s) == Root(Plug(p, t), s)
    ensures p.Top? ==> Root(Plug(p, Rotated(t, dir)), s) == t.Kid(!dir).node
  {
    InorderPlug(p, t);
    InorderPlug(p, Rotated(t, dir));
    RotatedInorder(t, dir);
    SameRoot(s, p, t, Rotated(t, dir));
  }

  /** What a rotation reads: the node, its rising child, that child's inner child, and the owner, all
      different, and the side of the owner that the node is on. */
  ghost predicate Turnable<N>(h: Heap<N>, s: N, dir: bool, side: bool, n: N, c: N, g: N, o: N) {
    && n in h && c in h && n != s && c != s && n != c && s !in h
    && h[n].kids.At(!dir) == c && h[n].parent == o && h[c].parent == n && h[c].kids.At(dir) == g
    && (g != s ==> g in h && g != n && g != c)
    && (o != s ==> o in h && o != n && o != c && o != g && (side <==> h[o].kids.right == n))
  }

  lemma RotateSpots<N>(h: Heap<N>, s: N, p: Path<N>, t: Tree<N>, dir: bool)
    requires Drawn(h, s, Plug(p, t), s) && NoDup(Inorder(Plug(p, t))) && t.Fork? && t.Kid(!dir).Fork? && s !in h
    ensures Turnable(h, s, dir, p.Step? && p.dir, t.node, t.Kid(!dir).node, Root(t.Kid(!dir).Kid(dir), s), Owner(p, s))
    ensures p.Step? ==> Owner(p, s) != s
  {
    hide Plug, Inorder, OnPath;
    var c := t.Kid(!dir);
    Spot(h, s, p, t);
    DrawnPlug(h, s, p, t);
    PlugParts(p, t);
    OwnerOn(p, t, s);
    ForkParts(t);
    ForkParts(c);
    RootIn(s, c);
    RootIn(s, c.Kid(dir));
    DrawnNodes(h, s, t, Owner(p, s));
    if p.Step? {
      StepParts(p, t);
      RootIn(s, t);
      RootIn(s, p.other);
    }
  }

  // ---- restoring the conditions after an insertion ----

  /** All conditions hold except that the red root of `t` may have a red parent, or none. */
  ghost predicate RedBelow<N>(p: Path<N>, t: Tree<N>) {
    IsRed(t) && Good(t) && PathGood(p, Height(t))
  }

  function Depth<N>(p: Path<N>): nat {
    if p.Top? then 0 else 1 + Depth(p.up)
  }

  lemma ForkedFacts<N>(red: bool, n: N, dir: bool, x: Tree<N>, y: Tree<N>)
    ensures var f := Forked(red, n, dir, x, y);
      && f.Fork? && f.red == red && f.node == n && f.Kid(dir) == x && f.Kid(!dir) == y
      && (Good(f) <==> Good(x) && Good(y) && Height(x) == Height(y) && (red ==> !IsRed(x) && !IsRed(y)))
      && (Height(x) == Height(y) ==> Height(f) == Height(x) + if red then 0 else 1)
  {}

  lemma PathFacts<N>(p: Path<N>, k: nat)
    requires p.Step?
    ensures PathGood(p, k) <==>
      && Good(p.other) && Height(p.other) == k && (p.red ==> !IsRed(p.other) && p.up.Step? && !p.up.red)
      && PathGood(p.up, k + if p.red then 0 else 1)
  {}

  lemma PlugStep<N>(p: Path<N>, t: Tree<N>)
    requires p.Step?
    ensures Plug(p, t) == Plug(p.up, Forked(p.red, p.node, p.dir, t, p.other))
  {}

  lemma PlugTop<N>(t: Tree<N>)
    ensures Plug(Top, t) == t
  {}

  lemma RedParent<N>(p: Path<N>, t: Tree<N>)
    requires RedBelow(p, t) && RedStep(p)
    ensures p.up.Step? && !p.up.red && !IsRed(p.other) && t.Fork? && Depth(p) > 0
  {}

  /** A red parent and a red uncle: both turn black and the grandparent red. */
  function Recolored<N>(p: Path<N>, t: Tree<N>): Tree<N>
    requires p.Step? && p.up.Step? && p.up.other.Fork?
  {
    Forked(true, p.up.node, p.up.dir, Forked(false, p.node, p.dir, t, p.other), p.up.other.(red := false))
  }

  lemma RecoloredBelow<N>(p: Path<N>, t: Tree<N>)
    requires RedBelow(p, t) && RedStep(p) && p.up.Step? && IsRed(p.up.other)
    ensures RedBelow(p.up.up, Recolored(p, t)) && Depth(p.up.up) < Depth(p)
  {
    hide Good, PathGood, Height;
    PathFacts(p, Height(t));
    PathFacts(p.up, Height(t));
    var par, uncle := Forked(false, p.node, p.dir, t, p.other), p.up.other;
    ForkedFacts(false, p.node, p.dir, t, p.other);
    ForkedFacts(true, uncle.node, false, uncle.left, uncle.right);
    ForkedFacts(false, uncle.node, false, uncle.left, uncle.right);
    ForkedFacts(true, p.up.node, p.up.dir, par, uncle.(red := false));
  }

  /** An inner grandchild is rotated outwards; the former parent is then the lower red node. */
  function Straight<N>(p: Path<N>, t: Tree<N>): (r: (Path<N>, Tree<N>))
    requires p.Step? && p.up.Step? && t.Fork?
  {
    var d := p.up.dir;
    if p.dir == d then (p, t) else
      (Step(p.up, t.node, true, d, t.Kid(!d)), Forked(true, p.node, d, p.other, t.Kid(d)))
  }

  lemma StraightBelow<N>(p: Path<N>, t: Tree<N>)
    requires RedBelow(p, t) && RedStep(p) && p.up.Step?
    ensures var (p', t') := Straight(p, t);
      RedBelow(p', t') && RedStep(p') && p'.up == p.up && p'.dir == p.up.dir && t'.Fork?
    ensures p.dir != p.up.dir ==>
      var (p', t') := Straight(p, t);
      var f := Forked(true, p.node, p.dir, t, p.other);
      f.Kid(!p.up.dir) == t && Plug(p, t) == Plug(p.up, f) && Plug(p', t') == Plug(p.up, Rotated(f, p.up.dir))
  {
    if p.dir != p.up.dir {
      hide Good, PathGood, Height, Plug;
      var d := p.up.dir;
      var (p', t') := Straight(p, t);
      PathFacts(p, Height(t));
      ForkedFacts(true, t.node, d, t.Kid(d), t.Kid(!d));
      ForkedFacts(true, p.node, d, p.other, t.Kid(d));
      PathFacts(p', Height(t'));
      PlugStep(p, t);
      PlugStep(p', t');
    }
  }

  /** An outer grandchild: the parent rises over the grandparent and takes its colour. */
  function Lifted<N>(p: Path<N>): Path<N>
    requires p.Step? && p.up.Step?
  {
    Step(p.up.up, p.node, false, p.dir, Forked(true, p.up.node, !p.dir, p.up.other, p.other))
  }

  lemma LiftedBelow<N>(p: Path<N>, t: Tree<N>)
    requires RedBelow(p, t) && RedStep(p) && p.up.Step? && p.dir == p.up.dir && !IsRed(p.up.other)
    ensures RedBelow(Lifted(p), t) && !RedStep(Lifted(p)) && Lifted(p).Step?
    ensures var f := Forked(true, p.up.node, p.up.dir, Forked(false, p.node, p.dir, t, p.other), p.up.other);
      f.Kid(p.up.dir).Fork? && Plug(Lifted(p), t) == Plug(p.up.up, Rotated(f, !p.up.dir))
  {
    hide Good, PathGood, Height, Plug;
    PathFacts(p, Height(t));
    PathFacts(p.up, Height(t));
    ForkedFacts(true, p.up.node, !p.dir, p.up.other, p.other);
    PathFacts(Lifted(p), Height(t));
    PlugStep(Lifted(p), t);
  }

  lemma InsertSettled<N>(p: Path<N>, t: Tree<N>)
    requires RedBelow(p, t) && !RedStep(p)
    ensures Plug(p, t).Fork? && RedBlack(Plug(p, t).(red := false))
  {
    PlugGood(p, t);
    if p.Step? { PlugFork(p, t); }
  }

  lemma {:induction false} PlugFork<N>(p: Path<N>, t: Tree<N>)
    requires p.Step? || t.Fork?
    ensures Plug(p, t).Fork?
  {
    if p.Step? { PlugFork(p.up, Forked(p.red, p.node, p.dir, t, p.other)); }
  }

  /** The heap around a red node under a red parent. */
  lemma InsertSpots<N>(h: Heap<N>, s: N, p: Path<N>, t: Tree<N>)
    requires Drawn(h, s, Plug(p, t), s) && NoDup(Inorder(Plug(p, t))) && t.Fork? && p.Step? && p.up.Step?
    ensures t.node in h && h[t.node].parent == p.node && p.node in h && p.node != s && h[p.node].parent == p.up.node
    ensures p.up.node in h && p.up.node != s
    ensures h[p.up.node].kids.left == p.node <==> !p.up.dir
    ensures h[p.up.node].kids.At(!p.up.dir) == Root(p.up.other, s)
    ensures h[p.node].kids.At(p.dir) == t.node && (h[p.node].kids.At(!p.up.dir) == t.node <==> p.dir != p.up.dir)
    ensures p.up.other.Fork? ==>
      p.up.other.node in h && p.up.other.node != s && h[p.up.other.node].red == IsRed(p.up.other)
  {
    hide Inorder, OnPath;
    var f := Forked(p.red, p.node, p.dir, t, p.other);
    Spot(h, s, p, t);
    Spot(h, s, p.up, f);
    PlugParts(p, t);
    StepParts(p, t);
    StepParts(p.up, f);
    RootIn(s, p.other);
    RootIn(s, p.up.other);
    RootIn(s, f);
    RootIn(s, t);
    DrawnPlug(h, s, p.up, f);
  }

  /** The conditions of the loop of the insertion fix-up, read from the heap. */
  lemma InsertGuard<N>(h: Heap<N>, s: N, p: Path<N>, t: Tree<N>)
    requires Drawn(h, s, Plug(p, t), s) && NoDup(Inorder(Plug(p, t))) && t.Fork?
    ensures t.node in h && (t.node == Root(Plug(p, t), s) <==> p.Top?)
    ensures p.Step? ==> h[t.node].parent == p.node && p.node in h && h[p.node].red == p.red
  {
    Spot(h, s, p, t);
    DrawnPlug(h, s, p, t);
    RootOfPlug(h, s, p, t);
    RootIn(s, t);
  }

  /** The three colourings of `Recolored` one after the other, each at its place. */
  lemma RecolorSteps<N>(p: Path<N>, t: Tree<N>)
    requires RedStep(p) && p.up.Step? && !p.up.red && p.up.other.Fork?
    ensures var up, u := p.up, p.up.other;
      var par, par' := Forked(true, p.node, p.dir, t, p.other), Forked(false, p.node, p.dir, t, p.other);
      && Plug(p, t) == Plug(up, par)
      && Plug(up, par') == Plug(Step(up.up, up.node, up.red, !up.dir, par'), u)
      && Plug(Step(up.up, up.node, up.red, !up.dir, par'), u.(red := false))
         == Plug(up.up, Forked(false, up.node, up.dir, par', u.(red := false)))
  {}

  lemma LiftSteps<N>(p: Path<N>, t: Tree<N>)
    requires RedStep(p) && p.up.Step? && !p.up.red && p.dir == p.up.dir
    ensures var up := p.up;
      var par, par' := Forked(true, p.node, p.dir, t, p.other), Forked(false, p.node, p.dir, t, p.other);
      && Plug(p, t) == Plug(up, par) && Plug(up, par') == Plug(up.up, Forked(false, up.node, up.dir, par', up.other))
      && Plug(up.up, Rotated(Forked(true, up.node, up.dir, par', up.other), !up.dir)) == Plug(Lifted(p), t)
  {}

  // ---- restoring the conditions after an erasure ----

  /** All conditions hold except that `t` is one black node short, and its root may be red. */
  ghost predicate Short<N>(p: Path<N>, t: Tree<N>) {
    && (t.Fork? ==> Good(t.left) && Good(t.right) && Height(t.left) == Height(t.right))
    && PathGood(p, Height(t) + 1)
  }

  /** Painting a red root black, or being at the top, makes up for the missing node. */
  lemma ShortDone<N>(p: Path<N>, t: Tree<N>)
    requires Short(p, t) && (p.Top? || IsRed(t))
    ensures if t.Leaf? then RedBlack(Plug(p, t)) else RedBlack(Plug(p, t.(red := false)))
  {
    if t.Fork? { PlugGood(p, t.(red := false)); }
  }

  lemma ShortSibling<N>(p: Path<N>, t: Tree<N>)
    requires Short(p, t) && p.Step?
    ensures p.other.Fork? && Depth(p) > 0
  {}

  lemma ShortTop<N>(t: Tree<N>)
    requires RedBlack(t)
    ensures Short(Top, t) && Plug(Top, t) == t
  {}

  /** A red sibling rises over the parent, which turns red. */
  function Lowered<N>(p: Path<N>): Path<N>
    requires p.Step? && p.other.Fork?
  {
    var d, sib := p.dir, p.other;
    Step(Step(p.up, sib.node, false, d, sib.Kid(!d)), p.node, true, d, sib.Kid(d))
  }

  lemma LoweredShort<N>(p: Path<N>, t: Tree<N>)
    requires Short(p, t) && !IsRed(t) && p.Step? && IsRed(p.other)
    ensures Short(Lowered(p), t) && !IsRed(Lowered(p).other) && Lowered(p).other.Fork?
    ensures var d, sib := p.dir, p.other;
      var sib' := sib.(red := false);
      && Plug(p, t) == Plug(Step(p.up, p.node, p.red, !d, t), sib)
      && Plug(Step(p.up, p.node, p.red, !d, t), sib') == Plug(p.up, Forked(p.red, p.node, d, t, sib'))
      && Forked(true, p.node, d, t, sib').Kid(!d) == sib'
      && Plug(p.up, Rotated(Forked(true, p.node, d, t, sib'), d)) == Plug(Lowered(p), t)
  {
    hide Good, PathGood, Height, Plug;
    var d, sib := p.dir, p.other;
    PathFacts(p, Height(t) + 1);
    ForkedFacts(true, sib.node, d, sib.Kid(d), sib.Kid(!d));
    PathFacts(Lowered(p), Height(t) + 1);
    PathFacts(Lowered(p).up, Height(t) + 1);
    ForkBlack(sib.Kid(d));
    PlugStep(p, t);
    PlugStep(Step(p.up, p.node, p.red, !d, t), sib);
    PlugStep(Step(p.up, p.node, p.red, !d, t), sib.(red := false));
    PlugStep(Lowered(p), t);
    PlugStep(Lowered(p).up, Forked(true, p.node, d, t, sib.Kid(d)));
  }

  lemma ForkBlack<N>(t: Tree<N>)
    ensures Height(t) > 0 ==> t.Fork?
  {}

  /** A black sibling with black children turns red, and the parent becomes the short place. */
  lemma PassedUp<N>(p: Path<N>, t: Tree<N>)
    requires Short(p, t) && !IsRed(t) && p.Step? && p.other.Fork? && !p.other.red
    requires !IsRed(p.other.left) && !IsRed(p.other.right)
    ensures Short(p.up, Forked(p.red, p.node, p.dir, t, p.other.(red := true))) && Depth(p.up) < Depth(p)
    ensures var q := Step(p.up, p.node, p.red, !p.dir, t);
      && Plug(p, t) == Plug(q, p.other)
      && Plug(q, p.other.(red := true)) == Plug(p.up, Forked(p.red, p.node, p.dir, t, p.other.(red := true)))
  {
    hide Good, PathGood, Plug;
    var q := Step(p.up, p.node, p.red, !p.dir, t);
    PathFacts(p, Height(t) + 1);
    GoodParts(t);
    GoodParts(p.other);
    GoodParts(p.other.(red := true));
    PlugStep(p, t);
    PlugStep(q, p.other);
    PlugStep(q, p.other.(red := true));
  }

  lemma GoodParts<N>(t: Tree<N>)
    ensures Good(t) <==> t.Fork? ==>
      && Good(t.left) && Good(t.right) && Height(t.left) == Height(t.right)
      && (t.red ==> !IsRed(t.left) && !IsRed(t.right))
  {}

  /** The near child of a black sibling rises over it. */
  function NearUp<N>(p: Path<N>): Path<N>
    requires p.Step? && p.other.Fork? && p.other.Kid(p.dir).Fork?
  {
    var d, sib := p.dir, p.other;
    var near := sib.Kid(d);
    p.(other := Forked(false, near.node, !d, Forked(true, sib.node, !d, sib.Kid(!d), near.Kid(!d)), near.Kid(d)))
  }

  lemma NearUpShort<N>(p: Path<N>, t: Tree<N>)
    requires Short(p, t) && !IsRed(t) && p.Step? && p.other.Fork? && !p.other.red
    requires IsRed(p.other.Kid(p.dir)) && !IsRed(p.other.Kid(!p.dir))
    ensures var q := NearUp(p); Short(q, t) && q.other.Fork? && !q.other.red && IsRed(q.other.Kid(!q.dir))
    ensures var d, sib := p.dir, p.other;
      var far, near, r := sib.Kid(!d), sib.Kid(d), Step(p.up, p.node, p.red, !d, t);
      var near' := near.(red := false);
      && Plug(p, t) == Plug(Step(r, sib.node, false, d, far), near)
      && Plug(Step(r, sib.node, false, d, far), near') == Plug(r, Forked(false, sib.node, !d, far, near'))
      && Forked(true, sib.node, !d, far, near').Kid(d) == near'
      && Plug(r, Rotated(Forked(true, sib.node, !d, far, near'), !d)) == Plug(NearUp(p), t)
  {
    hide Good, PathGood, Height, Plug;
    var d, sib := p.dir, p.other;
    var far, near, r := sib.Kid(!d), sib.Kid(d), Step(p.up, p.node, p.red, !d, t);
    PathFacts(p, Height(t) + 1);
    ForkedFacts(false, sib.node, d, near, far);
    ForkedFacts(true, near.node, d, near.Kid(d), near.Kid(!d));
    ForkedFacts(true, sib.node, !d, far, near.Kid(!d));
    ForkedFacts(false, near.node, !d, Forked(true, sib.node, !d, far, near.Kid(!d)), near.Kid(d));
    PathFacts(NearUp(p), Height(t) + 1);
    PlugStep(p, t);
    PlugStep(NearUp(p), t);
    PlugStep(r, sib);
    PlugStep(r, NearUp(p).other);
    PlugStep(Step(r, sib.node, false, d, far), near);
    PlugStep(Step(r, sib.node, false, d, far), near.(red := false));
  }

  /** The sibling rises over the parent and takes its colour; parent and far child turn black. */
  function Borrowed<N>(p: Path<N>, t: Tree<N>): Tree<N>
    requires p.Step? && p.other.Fork? && p.other.Kid(!p.dir).Fork?
  {
    var d, sib := p.dir, p.other;
    Forked(p.red, sib.node, d, Forked(false, p.node, d, t, sib.Kid(d)), sib.Kid(!d).(red := false))
  }

  lemma BorrowedDone<N>(p: Path<N>, t: Tree<N>)
    requires Short(p, t) && !IsRed(t) && p.Step? && p.other.Fork? && !p.other.red && IsRed(p.other.Kid(!p.dir))
    ensures RedBlack(Plug(p.up, Borrowed(p, t)))
    ensures var d, sib := p.dir, p.other;
      var far, near, q := sib.Kid(!d), sib.Kid(d), Step(p.up, p.node, p.red, !d, t);
      var sib', far' := sib.(red := p.red), far.(red := false);
      var r := Step(Step(p.up, p.node, false, !d, t), sib.node, p.red, !d, near);
      && Plug(p, t) == Plug(q, sib)
      && Plug(q, sib') == Plug(p.up, Forked(p.red, p.node, d, t, sib'))
      && Plug(p.up, Forked(false, p.node, d, t, sib')) == Plug(r, far)
      && Plug(r, far') == Plug(p.up, Forked(false, p.node, d, t, Forked(p.red, sib.node, !d, far', near)))
      && Forked(false, p.node, d, t, Forked(p.red, sib.node, !d, far', near)).Kid(!d).Fork?
      && Rotated(Forked(false, p.node, d, t, Forked(p.red, sib.node, !d, far', near)), d) == Borrowed(p, t)
  {
    hide Good, PathGood, Plug;
    var d, sib := p.dir, p.other;
    var far, near, q := sib.Kid(!d), sib.Kid(d), Step(p.up, p.node, p.red, !d, t);
    var r := Step(Step(p.up, p.node, false, !d, t), sib.node, p.red, !d, near);
    PathFacts(p, Height(t) + 1);
    GoodParts(t);
    ForkedFacts(false, sib.node, d, near, far);
    GoodParts(far);
    GoodParts(far.(red := false));
    ForkedFacts(false, p.node, d, t, near);
    ForkedFacts(p.red, sib.node, d, Forked(false, p.node, d, t, near), far.(red := false));
    PlugGood(p.up, Borrowed(p, t));
    PlugStep(p, t);
    PlugStep(q, sib);
    PlugStep(q, sib.(red := p.red));
    PlugStep(r, far);
    PlugStep(r, far.(red := false));
    PlugStep(r.up, Forked(p.red, sib.node, !d, far, near));
    PlugStep(r.up, Forked(p.red, sib.node, !d, far.(red := false), near));
  }

  /** The heap around a place with a sibling. */
  lemma EraseSpots<N>(h: Heap<N>, s: N, p: Path<N>, t: Tree<N>)
    requires Drawn(h, s, Plug(p, t), s) && NoDup(Inorder(Plug(p, t))) && p.Step? && p.other.Fork?
    ensures p.node in h && p.node != s && h[p.node].parent == Owner(p.up, s) && h[p.node].red == p.red
    ensures h[p.node].kids.At(p.dir) == Root(t, s) && h[p.node].kids.At(!p.dir) == p.other.node
    ensures h[p.node].kids.left == Root(t, s) <==> !p.dir
    ensures var sib := p.other;
      && sib.node in h && sib.node != s && h[sib.node].red == sib.red
      && h[sib.node].kids == Kids(Root(sib.left, s), Root(sib.right, s))
      && (sib.left.Fork? ==> sib.left.node in h && sib.left.node != s && h[sib.left.node].red == sib.left.red)
      && (sib.right.Fork? ==> sib.right.node in h && sib.right.node != s && h[sib.right.node].red == sib.right.red)
  {
    hide Inorder, OnPath;
    Spot(h, s, p, t);
    StepParts(p, t);
    RootIn(s, p.other);
    RootIn(s, t);
    DrawnPlug(h, s, p, t);
    PlugParts(p, t);
    DrawnTop(h, s, p.other, p.node);
    DrawnTop(h, s, p.other.left, p.other.node);
    DrawnTop(h, s, p.other.right, p.other.node);
  }

  lemma DrawnTop<N>(h: Heap<N>, s: N, t: Tree<N>, parent: N)
    requires Drawn(h, s, t, parent)
    ensures t.Fork? ==>
      t.node in h && t.node != s && h[t.node] == Cell(parent, Kids(Root(t.left, s), Root(t.right, s)), t.red)
    ensures t.Fork? ==> Drawn(h, s, t.left, t.node) && Drawn(h, s, t.right, t.node)
  {}

  /** The conditions of the loop of the erasure fix-up, read from the heap. */
  lemma EraseGuard<N>(h: Heap<N>, s: N, p: Path<N>, t: Tree<N>)
    requires Drawn(h, s, Plug(p, t), s) && NoDup(Inorder(Plug(p, t)))
    ensures Root(t, s) == Root(Plug(p, t), s) <==> p.Top?
    ensures Root(t, s) == if t.Leaf? then s else t.node
    ensures t.Fork? ==> t.node in h && t.node != s && h[t.node].red == t.red && h[t.node].parent == Owner(p, s)
  {
    Spot(h, s, p, t);
    DrawnPlug(h, s, p, t);
    RootOfPlug(h, s, p, t);
    RootIn(s, t);
  }

  // ---- insertion and erasure of one node ----

  /** A red leaf in place of an empty tree. */
  lemma Sprouted<N>(s: N, p: Path<N>, n: N)
    requires NoDup(Inorder(Plug(p, Leaf))) && n !in Inorder(Plug(p, Leaf))
    ensures var t := Plug(p, Fork(true, Leaf, n, Leaf));
      NoDup(Inorder(t)) && Inorder(t) == Before(p) + [n] + After(p) && Inorder(Plug(p, Leaf)) == Before(p) + After(p)
    ensures RedBlack(Plug(p, Leaf)) ==> RedBelow(p, Fork(true, Leaf, n, Leaf))
    ensures Root(Plug(p, Fork(true, Leaf, n, Leaf)), s) == if p.Top? then n else Root(Plug(p, Leaf), s)
  {
    InorderPlug(p, Leaf);
    InorderPlug(p, Fork(true, Leaf, n, Leaf));
    PlugGood(p, Leaf);
    SameRoot(s, p, Leaf, Fork(true, Leaf, n, Leaf));
    assert Before(p) + [] == Before(p);
    NoDupInsert(Before(p), n, After(p));
    assert Inorder(Fork(true, Leaf, n, Leaf)) == [n];
  }

  lemma NoDupInsert<N>(a: seq<N>, n: N, b: seq<N>)
    requires NoDup(a + b) && n !in a + b
    ensures NoDup(a + [n] + b)
  {
    var s, t := a + b, a + [n] + b;
    forall i, j | 0 <= i < j < |t|
      ensures t[i] != t[j]
    {
      var i' := if i > |a| then i - 1 else i;
      var j' := if j > |a| then j - 1 else j;
      assert i != |a| ==> t[i] == s[i'];
      assert j != |a| ==> t[j] == s[j'];
    }
  }

  /** The place of a node in a tree. */
  lemma {:induction false} Locate<N>(t: Tree<N>, n: N) returns (p: Path<N>, u: Tree<N>)
    requires n in Inorder(t)
    ensures t == Plug(p, u) && u.Fork? && u.node == n
  {
    if t.node == n {
      p, u := Top, t;
    } else if n in Inorder(t.left) {
      p, u := Locate(t.left, n);
      Under(p, Step(Top, t.node, t.red, false, t.right), u);
      p := Joined(p, Step(Top, t.node, t.red, false, t.right));
    } else {
      p, u := Locate(t.right, n);
      Under(p, Step(Top, t.node, t.red, true, t.left), u);
      p := Joined(p, Step(Top, t.node, t.red, true, t.left));
    }
  }

  /** The path `p` below the path `q`. */
  function Joined<N>(p: Path<N>, q: Path<N>): Path<N> {
    if p.Top? then q else p.(up := Joined(p.up, q))
  }

  lemma {:induction false} Under<N>(p: Path<N>, q: Path<N>, t: Tree<N>)
    ensures Plug(Joined(p, q), t) == Plug(q, Plug(p, t))
  {
    if p.Step? { Under(p.up, q, Forked(p.red, p.node, p.dir, t, p.other)); }
  }

  /** Without a black node the place is short; without a red one nothing is wrong. */
  lemma DetachedGood<N>(p: Path<N>, t: Tree<N>)
    requires RedBlack(Plug(p, t)) && t.Fork? && (t.left.Leaf? || t.right.Leaf?)
    ensures if t.red then RedBlack(Plug(p, Detached(t))) else Short(p, Detached(t))
  {
    PlugGood(p, t);
    PlugGood(p, Detached(t));
  }

  /** The nodes in front of the root of `t`, and those behind it, in the whole tree. */
  function LeftOf<N>(p: Path<N>, t: Tree<N>): seq<N>
    requires t.Fork?
  {
    Before(p) + Inorder(t.left)
  }

  function RightOf<N>(p: Path<N>, t: Tree<N>): seq<N>
    requires t.Fork?
  {
    Inorder(t.right) + After(p)
  }

  lemma OrderAt<N>(p: Path<N>, t: Tree<N>)
    requires t.Fork?
    ensures Inorder(Plug(p, t)) == LeftOf(p, t) + [t.node] + RightOf(p, t)
  {
    hide Before, After, Plug;
    InorderPlug(p, t);
  }

  lemma DetachedOrder<N>(s: N, p: Path<N>, t: Tree<N>)
    requires t.Fork? && (t.left.Leaf? || t.right.Leaf?) && NoDup(Inorder(Plug(p, t)))
    ensures Inorder(Plug(p, Detached(t))) == LeftOf(p, t) + RightOf(p, t)
    ensures NoDup(Inorder(Plug(p, Detached(t)))) && t.node !in Inorder(Plug(p, Detached(t)))
    ensures Root(Plug(p, Detached(t)), s) == if p.Top? then Root(Detached(t), s) else Root(Plug(p, t), s)
  {
    hide Before, After, Plug, NoDup;
    OrderAt(p, t);
    InorderPlug(p, Detached(t));
    SameRoot(s, p, t, Detached(t));
    DropOne(LeftOf(p, t), t.node, RightOf(p, t));
  }

  lemma DropOne<N>(a: seq<N>, n: N, b: seq<N>)
    requires NoDup(a + [n] + b)
    ensures NoDup(a + b) && n !in a + b
  {
    var s, t := a + [n] + b, a + b;
    Separate(a, [n], b);
    assert n in [n];
    assert forall i :: 0 <= i < |t| ==> t[i] == s[if i < |a| then i else i + 1];
  }

  lemma SupplantedGood<N>(p: Path<N>, t: Tree<N>, d: N)
    requires RedBlack(Plug(p, t)) && t.Fork?
    ensures RedBlack(Plug(p, t.(node := d)))
  {
    hide Plug, PathGood;
    PlugGood(p, t);
    PlugGood(p, t.(node := d));
  }

  lemma SupplantedOrder<N>(s: N, p: Path<N>, t: Tree<N>, d: N)
    requires t.Fork? && NoDup(Inorder(Plug(p, t))) && d !in Inorder(Plug(p, t))
    ensures Inorder(Plug(p, t.(node := d))) == LeftOf(p, t) + [d] + RightOf(p, t)
    ensures NoDup(Inorder(Plug(p, t.(node := d))))
    ensures Root(Plug(p, t.(node := d)), s) == if p.Top? then d else Root(Plug(p, t), s)
  {
    hide Before, After, Plug, NoDup;
    OrderAt(p, t);
    OrderAt(p, t.(node := d));
    Replaced(LeftOf(p, t), t.node, RightOf(p, t), d);
    SameRoot(s, p, t, t.(node := d));
  }

  lemma Replaced<N>(a: seq<N>, n: N, b: seq<N>, d: N)
    requires NoDup(a + [n] + b) && d !in a + [n] + b
    ensures NoDup(a + [d] + b)
  {
    var s, t := a + [n] + b, a + [d] + b;
    forall i, j | 0 <= i < j < |t|
      ensures t[i] != t[j]
    {
      assert i != |a| ==> t[i] == s[i];
      assert j != |a| ==> t[j] == s[j];
    }
  }

  /** The sequence without the first `n`. */
  function Without<N(==)>(s: seq<N>, n: N): seq<N> {
    if s == [] then [] else if s[0] == n then s[1..] else [s[0]] + Without(s[1..], n)
  }

  lemma {:induction false} WithoutAt<N>(a: seq<N>, n: N, b: seq<N>)
    requires NoDup(a + [n] + b)
    ensures Without(a + [n] + b, n) == a + b && |a + [n] + b| == |a + b| + 1
  {
    var s := a + [n] + b;
    if a == [] {
      assert s[0] == n && s[1..] == b;
      assert a + b == b;
    } else {
      assert s[0] == a[0] && s[|a|] == n;
      assert s[1..] == a[1..] + [n] + b;
      WithoutAt(a[1..], n, b);
      assert [a[0]] + (a[1..] + b) == a + b;
    }
  }

  lemma {:induction false} SameSplit<N>(a: seq<N>, n: N, b: seq<N>, a': seq<N>, b': seq<N>)
    requires NoDup(a + [n] + b) && a + [n] + b == a' + [n] + b'
    ensures a == a' && b == b'
  {
    var s := a + [n] + b;
    assert s[|a|] == n && s[|a'|] == n;
    assert a == s[..|a|] && a' == s[..|a'|] && b == s[|a| + 1..] && b' == s[|a'| + 1..];
  }

  /** Taking out the successor `d` of `n` and then putting it in the place of `n` takes out `n`. */
  lemma SuccessorTakesOver<N>(x: seq<N>, n: N, d: N, r: seq<N>, a: seq<N>, b: seq<N>)
    requires NoDup(x + [n] + [d] + r) && x + [n] + r == a + [n] + b
    ensures a + [d] + b == Without(x + [n] + [d] + r, n)
  {
    assert x + [n] + [d] + r == (x + [n]) + [d] + r == x + [n] + ([d] + r);
    DropOne(x + [n], d, r);
    SameSplit(x, n, r, a, b);
    WithoutAt(x, n, [d] + r);
    assert a + [d] + b == x + ([d] + r);
  }

  /** The leftmost node of the right subtree follows immediately. */
  lemma GoesLeft<N>(q: Path<N>, u: Tree<N>)
    requires u.Fork?
    ensures var q' := Step(q, u.node, u.red, false, u.right); Plug(q', u.left) == Plug(q, u) && Before(q') == Before(q)
    ensures u.left.Leaf? ==> LeftOf(q, u) == Before(q)
  {}

  lemma GoesRight<N>(p: Path<N>, t: Tree<N>)
    requires t.Fork?
    ensures var q := Step(p, t.node, t.red, true, t.left);
      Plug(q, t.right) == Plug(p, t) && Before(q) == LeftOf(p, t) + [t.node]
  {
    assert Before(p) + (Inorder(t.left) + [t.node]) == LeftOf(p, t) + [t.node];
  }

  lemma KidSpots<N>(h: Heap<N>, s: N, p: Path<N>, t: Tree<N>)
    requires Drawn(h, s, Plug(p, t), s) && NoDup(Inorder(Plug(p, t))) && t.Fork?
    ensures Root(t.left, s) == s <==> t.left.Leaf?
    ensures Root(t.right, s) == s <==> t.right.Leaf?
    ensures t.left.Fork? ==> t.left.node in h && t.left.node != t.node && h[t.left.node].parent == t.node
    ensures t.right.Fork? ==> t.right.node in h && t.right.node != t.node && h[t.right.node].parent == t.node
    ensures t.left.Fork? && t.right.Fork? ==> t.left.node != t.right.node
    ensures p.Step? ==> p.node != t.node && p.node != Root(t.left, s) && p.node != Root(t.right, s)
  {
    hide Plug, OnPath;
    DrawnPlug(h, s, p, t);
    DrawnTop(h, s, t, Owner(p, s));
    DrawnTop(h, s, t.left, t.node);
    DrawnTop(h, s, t.right, t.node);
    PlugParts(p, t);
    ForkParts(t);
    RootIn(s, t.left);
    RootIn(s, t.right);
    Spot(h, s, p, t);
  }

  lemma UnhookSpots<N>(h: Heap<N>, s: N, p: Path<N>, t: Tree<N>)
    requires Drawn(h, s, Plug(p, t), s) && NoDup(Inorder(Plug(p, t))) && t.Fork? && (t.left.Leaf? || t.right.Leaf?)
    requires s !in h
    ensures Removable(h, s, p.Step? && p.dir, t.node, Owner(p, s), Root(Detached(t), s)) && h[t.node].red == t.red
    ensures p.Step? ==> Owner(p, s) != s
    ensures Detached(t).Fork? ==> Root(Detached(t), s) != s
  {
    hide Plug, Inorder, OnPath, Drawn;
    Spot(h, s, p, t);
    KidSpots(h, s, p, t);
    SideOf(h, s, p, t);
  }

  /** What a removal reads: the node, its owner and its only child, all different. */
  ghost predicate Removable<N>(h: Heap<N>, s: N, side: bool, d: N, o: N, x: N) {
    && d in h && d != s && s !in h && h[d].parent == o && h[d].kids.At(h[d].kids.left == s) == x
    && (x != s ==> x in h && x != d && x != o)
    && (o != s ==> o in h && o != d && (side <==> h[o].kids.right == d))
  }

  lemma SideOf<N>(h: Heap<N>, s: N, p: Path<N>, t: Tree<N>)
    requires Drawn(h, s, Plug(p, t), s) && NoDup(Inorder(Plug(p, t))) && t.Fork? && p.Step? ==> p.node in h
    ensures Drawn(h, s, Plug(p, t), s) && NoDup(Inorder(Plug(p, t))) && t.Fork? && p.Step? ==>
      (p.dir <==> h[p.node].kids.right == t.node)
  {
    if Drawn(h, s, Plug(p, t), s) && NoDup(Inorder(Plug(p, t))) && t.Fork? && p.Step? {
      Spot(h, s, p, t);
      StepParts(p, t);
      RootIn(s, t);
      RootIn(s, p.other);
    }
  }

  /** What a takeover reads: the node, the newcomer, the owner and the children, all different. */
  ghost predicate Replaceable<N>(h: Heap<N>, s: N, side: bool, n: N, d: N, o: N, l: N, r: N) {
    && n in h && d in h && n != d && s !in h && h[n].parent == o && h[n].kids == Kids(l, r)
    && (l != s ==> l in h && l != n && l != d) && (r != s ==> r in h && r != n && r != d && r != l)
    && (o != s ==> o in h && o != n && o != d && o != l && o != r && (side <==> h[o].kids.right == n))
  }

  lemma SupplantSpots<N>(h: Heap<N>, s: N, p: Path<N>, t: Tree<N>, d: N)
    requires Drawn(h, s, Plug(p, t), s) && NoDup(Inorder(Plug(p, t))) && t.Fork? && s !in h
    requires d in h && d !in Inorder(Plug(p, t))
    ensures Replaceable(h, s, p.Step? && p.dir, t.node, d, Owner(p, s), Root(t.left, s), Root(t.right, s))
    ensures (t.left.Fork? ==> Root(t.left, s) != s) && (t.right.Fork? ==> Root(t.right, s) != s)
    ensures p.Step? ==> Owner(p, s) != s
  {
    hide Plug, OnPath;
    Spot(h, s, p, t);
    KidSpots(h, s, p, t);
    SideOf(h, s, p, t);
    OwnerOn(p, t, s);
    PlugParts(p, t);
    ForkParts(t);
    RootIn(s, t.left);
    RootIn(s, t.right);
  }

  /** A node outside the tree may leave the heap. */
  lemma Released<N>(h: Heap<N>, h': Heap<N>, s: N, t: Tree<N>, n: N)
    requires Drawn(h, s, t, s) && n !in Inorder(t) && SameBut(h, h', {n})
    ensures Drawn(h', s, t, s)
  {
    DrawnFrame(h, h', s, t, s);
  }

  lemma {:induction false} NotWithout<N>(s: seq<N>, n: N)
    requires NoDup(s)
    ensures n !in Without(s, n)
  {
    if s != [] {
      assert forall i :: 0 <= i < |s[1..]| ==> s[1..][i] == s[i + 1];
      NotWithout(s[1..], n);
    }
  }

  // ---- iteration ----

  /** An iterator: a node, or one of the two ends. */
  datatype Itr<+N> = Bound(dir: bool) | At(node: N)

  /** The first element for `dir`, the last otherwise; the end in that direction if there is none. */
  function Extreme<N>(s: seq<N>, dir: bool): Itr<N> {
    if s == [] then Bound(dir) else At(if dir then s[0] else s[|s| - 1])
  }

  function Index<N(==)>(s: seq<N>, n: N): (i: nat)
    requires n in s
    ensures i < |s| && s[i] == n
  {
    if s[0] == n then 0 else 1 + Index(s[1..], n)
  }

  /** The element after `n`, or before it. */
  function Neighbor<N(==)>(s: seq<N>, n: N, dir: bool): Itr<N>
    requires n in s
  {
    var i := Index(s, n);
    if dir then (if i + 1 < |s| then At(s[i + 1]) else Bound(true))
    else if i > 0 then At(s[i - 1]) else Bound(false)
  }

  /** In a sequence without repetitions the neighbour of `s[i]` is next to it. */
  lemma NextTo<N>(s: seq<N>, n: N, dir: bool)
    requires NoDup(s) && n in s
    ensures forall i {:trigger s[i]} :: 0 <= i < |s| && s[i] == n ==>
      Neighbor(s, n, dir) == if dir then (if i + 1 < |s| then At(s[i + 1]) else Bound(true))
                             else if i > 0 then At(s[i - 1]) else Bound(false)
  {
    forall i {:trigger s[i]} | 0 <= i < |s| && s[i] == n
      ensures Neighbor(s, n, dir) == if dir then (if i + 1 < |s| then At(s[i + 1]) else Bound(true))
                                     else if i > 0 then At(s[i - 1]) else Bound(false)
    {
      var k := Index(s, n);
      assert i == k;
    }
  }

  lemma NeighborAt<N>(a: seq<N>, n: N, b: seq<N>, dir: bool)
    requires NoDup(a + [n] + b)
    ensures n in a + [n] + b && Neighbor(a + [n] + b, n, dir) == Extreme(if dir then b else a, dir)
  {
    var s := a + [n] + b;
    assert s[|a|] == n;
    assert Index(s, n) == |a|;
  }

  lemma ExtremeStep<N>(u: Tree<N>, dir: bool)
    requires u.Fork?
    ensures Inorder(u) != []
    ensures Extreme(Inorder(u), dir) ==
      if u.Kid(!dir).Leaf? then At(u.node) else Extreme(Inorder(u.Kid(!dir)), dir)
  {}

  function Side<N>(p: Path<N>, dir: bool): seq<N> {
    if dir then After(p) else Before(p)
  }

  /** The neighbour of a node lies in its subtree on that side or, if that is empty, up the path. */
  lemma NeighborSide<N>(p: Path<N>, t: Tree<N>, dir: bool)
    requires t.Fork? && NoDup(Inorder(Plug(p, t)))
    ensures t.node in Inorder(Plug(p, t))
    ensures Neighbor(Inorder(Plug(p, t)), t.node, dir) ==
      if t.Kid(dir).Fork? then Extreme(Inorder(t.Kid(dir)), dir) else Extreme(Side(p, dir), dir)
  {
    hide Plug, Before, After, Neighbor, Index;
    OrderAt(p, t);
    NeighborAt(LeftOf(p, t), t.node, RightOf(p, t), dir);
    if t.Kid(dir).Fork? { ExtremeStep(t.Kid(dir), dir); }
  }

  lemma SideStep<N>(p: Path<N>, dir: bool)
    ensures p.Top? ==> Extreme(Side(p, dir), dir) == Bound(dir)
    ensures p.Step? && p.dir != dir ==> Extreme(Side(p, dir), dir) == At(p.node)
    ensures p.Step? && p.dir == dir ==> Side(p, dir) == Side(p.up, dir)
  {}
}
