/** Shapes of the red-black trees of openbsd-compat/sys/tree.h: nodes with parent pointers,
    the ghost tree they form, and a node's surroundings as a path (a zipper), the frames
    from it up to the root. */
module RbShape {
  import opened Keys

  class Node {
    const key: Text
    var left: Node?
    var right: Node?
    var parent: Node?
    var red: bool

    constructor (key: Text)
      ensures this.key == key
    {
      this.key := key;
      left, right, parent, red := null, null, null, false;
    }
  }

  /*** Shapes ***/

  datatype Tree = Leaf | Br(red: bool, left: Tree, node: Node, right: Tree)

  // The way up from a hole: in the left or the right subtree of a node, with the
  // other subtree beside it.
  datatype Path =
    | Top
    | InLeft(up: Path, red: bool, node: Node, sib: Tree)
    | InRight(up: Path, red: bool, node: Node, sib: Tree)

  ghost function InOrder(t: Tree): seq<Node> {
    match t
    case Leaf => []
    case Br(_, l, n, r) => InOrder(l) + [n] + InOrder(r)
  }

  ghost function Nodes(t: Tree): set<Node> {
    match t
    case Leaf => {}
    case Br(_, l, n, r) => Nodes(l) + {n} + Nodes(r)
  }

  ghost function PNodes(p: Path): set<Node> {
    match p
    case Top => {}
    case InLeft(up, _, n, s) => PNodes(up) + {n} + Nodes(s)
    case InRight(up, _, n, s) => PNodes(up) + {n} + Nodes(s)
  }

  // The nodes before and after the hole.
  ghost function Before(p: Path): seq<Node> {
    match p
    case Top => []
    case InLeft(up, _, _, _) => Before(up)
    case InRight(up, _, n, s) => Before(up) + (InOrder(s) + [n])
  }

  ghost function After(p: Path): seq<Node> {
    match p
    case Top => []
    case InLeft(up, _, n, s) => ([n] + InOrder(s)) + After(up)
    case InRight(up, _, _, _) => After(up)
  }

  // The whole tree with t in the hole.
  ghost function Plug(p: Path, t: Tree): Tree
    decreases p
  {
    match p
    case Top => t
    case InLeft(up, c, n, s) => Plug(up, Br(c, t, n, s))
    case InRight(up, c, n, s) => Plug(up, Br(c, s, n, t))
  }

  function Owner(p: Path): Node? {
    if p.Top? then null else p.node
  }

  /*** Pointers ***/

  ghost predicate Rep(t: Tree, p: Node?, parent: Node?)
    reads Nodes(t)
  {
    match t
    case Leaf => p == null
    case Br(c, l, n, r) =>
      p == n && n.parent == parent && n.red == c && Rep(l, n.left, n) && Rep(r, n.right, n)
  }

  ghost predicate PathRep(p: Path, root: Node?, child: Node?)
    reads PNodes(p)
  {
    match p
    case Top => root == child
    case InLeft(up, c, n, s) =>
      n.left == child && n.parent == Owner(up) && n.red == c && Rep(s, n.right, n) && PathRep(up, root, n)
    case InRight(up, c, n, s) =>
      n.right == child && n.parent == Owner(up) && n.red == c && Rep(s, n.left, n) && PathRep(up, root, n)
  }

  ghost predicate Distinct(s: seq<Node>) {
    forall i, j :: 0 <= i < j < |s| ==> s[i] != s[j]
  }

  // The pointers show t at p inside the path, and s is the whole in-order sequence.
  ghost predicate At(path: Path, t: Tree, root: Node?, p: Node?, s: seq<Node>)
    reads PNodes(path), Nodes(t)
  {
    && Rep(t, p, Owner(path)) && PathRep(path, root, p)
    && s == Before(path) + InOrder(t) + After(path) && Distinct(s)
  }

  /*** Sequences and node sets ***/

  lemma {:induction false} DistinctSplit(s: seq<Node>, t: seq<Node>)
    requires Distinct(s + t)
    ensures Distinct(s) && Distinct(t)
    ensures forall n :: n in s ==> n !in t
  {
    var u := s + t;
    assert forall i :: 0 <= i < |s| ==> u[i] == s[i];
    assert forall i :: 0 <= i < |t| ==> u[|s| + i] == t[i];
    forall m, n | m in s && n in t ensures m != n {
      var i :| 0 <= i < |s| && s[i] == m;
      var j :| 0 <= j < |t| && t[j] == n;
      assert u[i] != u[|s| + j];
    }
  }

  lemma {:induction false} NodesInOrder(t: Tree)
    ensures forall n :: n in Nodes(t) ==> n in InOrder(t)
    ensures forall n :: n in InOrder(t) ==> n in Nodes(t)
  {
    if t.Br? {
      NodesInOrder(t.left);
      NodesInOrder(t.right);
    }
  }

  lemma {:induction false} NodesOfPath(p: Path)
    ensures forall n :: n in PNodes(p) ==> n in Before(p) + After(p)
    ensures forall n :: n in Before(p) + After(p) ==> n in PNodes(p)
  {
    if !p.Top? {
      NodesOfPath(p.up);
      NodesInOrder(p.sib);
      assert forall n :: n in Before(p) + After(p) <==> n in Before(p) || n in After(p);
      assert forall n :: n in Before(p.up) + After(p.up) <==> n in Before(p.up) || n in After(p.up);
    }
  }

  // Distinct in-order sequences keep a tree's parts and its path apart.
  ghost predicate TreeApart(t: Tree) {
    t.Br? ==> t.node !in Nodes(t.left) && t.node !in Nodes(t.right) && Nodes(t.left) !! Nodes(t.right)
  }

  ghost predicate PathApart(p: Path) {
    !p.Top? ==> p.node !in Nodes(p.sib) && p.node !in PNodes(p.up) && Nodes(p.sib) !! PNodes(p.up)
  }

  lemma {:induction false} DistinctTree(t: Tree)
    requires Distinct(InOrder(t))
    ensures TreeApart(t)
    ensures t.Br? ==> Distinct(InOrder(t.left)) && Distinct(InOrder(t.right))
  {
    if t.Br? {
      DistinctSplit(InOrder(t.left) + [t.node], InOrder(t.right));
      DistinctSplit(InOrder(t.left), [t.node]);
      NodesInOrder(t.left);
      NodesInOrder(t.right);
      assert t.node in [t.node] && t.node in InOrder(t.left) + [t.node];
      assert forall n :: n in InOrder(t.left) ==> n in InOrder(t.left) + [t.node];
    }
  }

  lemma {:induction false} DistinctParts(path: Path, t: Tree, s: seq<Node>)
    requires s == Before(path) + InOrder(t) + After(path) && Distinct(s)
    ensures Distinct(InOrder(t)) && Distinct(Before(path) + After(path))
    ensures Nodes(t) !! PNodes(path)
  {
    hide Distinct, InOrder, Before, After;
    var a, b, c := Before(path), InOrder(t), After(path);
    DistinctSplit(a + b, c);
    DistinctSplit(a, b);
    NodesInOrder(t);
    NodesOfPath(path);
    DistinctSides(a, b, c);
    assert forall n :: n in a + b <==> n in a || n in b;
    assert forall n :: n in a + c <==> n in a || n in c;
  }

  lemma {:induction false} DistinctSides(a: seq<Node>, b: seq<Node>, c: seq<Node>)
    requires Distinct(a + b + c)
    ensures Distinct(a + c)
  {
    var s := a + b + c;
    forall i, j | 0 <= i < j < |a + c| ensures (a + c)[i] != (a + c)[j] {
      var i', j' := if i < |a| then i else i + |b|, if j < |a| then j else j + |b|;
      assert (a + c)[i] == s[i'] && (a + c)[j] == s[j'];
    }
  }

  lemma {:induction false} DistinctPath(p: Path)
    requires Distinct(Before(p) + After(p))
    ensures PathApart(p)
    ensures !p.Top? ==> Distinct(Before(p.up) + After(p.up))
  {
    // A frame is its node and sibling, seen as a tree in the hole of the rest.
    match p
    case Top =>
    case InLeft(up, c, n, s) =>
      var u := Br(c, Leaf, n, s);
      assert InOrder(u) == [n] + InOrder(s);
      assert Before(p) + After(p) == Before(up) + InOrder(u) + After(up);
      DistinctParts(up, u, Before(p) + After(p));
      DistinctTree(u);
    case InRight(up, c, n, s) =>
      var u := Br(c, s, n, Leaf);
      assert InOrder(u) == InOrder(s) + [n];
      assert Before(p) + After(p) == Before(up) + InOrder(u) + After(up);
      DistinctParts(up, u, Before(p) + After(p));
      DistinctTree(u);
  }

  /*** Moving the focus ***/

  ghost function Refill(p: Path, t: Tree): Tree
    requires !p.Top?
  {
    if p.InLeft? then Br(p.red, t, p.node, p.sib) else Br(p.red, p.sib, p.node, t)
  }

  lemma {:induction false} Up(path: Path, t: Tree, root: Node?, p: Node?, s: seq<Node>)
    requires At(path, t, root, p, s) && !path.Top?
    ensures At(path.up, Refill(path, t), root, path.node, s)
  {
    RefillInOrder(path, t);
  }

  lemma {:induction false} RefillInOrder(path: Path, t: Tree)
    requires !path.Top?
    ensures Before(path.up) + InOrder(Refill(path, t)) + After(path.up) == Before(path) + InOrder(t) + After(path)
  {
    var a, b, d, e, n := Before(path.up), InOrder(t), InOrder(path.sib), After(path.up), path.node;
    if path.InLeft? { SeqLeft(a, b, n, d, e); } else { SeqRight(a, b, n, d, e); }
  }

  lemma {:induction false} SeqLeft(a: seq<Node>, b: seq<Node>, n: Node, d: seq<Node>, e: seq<Node>)
    ensures a + (b + [n] + d) + e == a + b + (([n] + d) + e)
  {
  }

  lemma {:induction false} SeqRight(a: seq<Node>, b: seq<Node>, n: Node, d: seq<Node>, e: seq<Node>)
    ensures a + (d + [n] + b) + e == (a + (d + [n])) + b + e
  {
  }

  lemma {:induction false} DownLeft(path: Path, t: Tree, root: Node?, p: Node?, s: seq<Node>)
    requires At(path, t, root, p, s) && t.Br?
    ensures At(InLeft(path, t.red, t.node, t.right), t.left, root, t.node.left, s)
  {
    SeqLeft(Before(path), InOrder(t.left), t.node, InOrder(t.right), After(path));
  }

  lemma {:induction false} DownRight(path: Path, t: Tree, root: Node?, p: Node?, s: seq<Node>)
    requires At(path, t, root, p, s) && t.Br?
    ensures At(InRight(path, t.red, t.node, t.left), t.right, root, t.node.right, s)
  {
    SeqRight(Before(path), InOrder(t.right), t.node, InOrder(t.left), After(path));
  }

  // One level of a shape.
  lemma {:induction false} RepView(t: Tree, p: Node?, parent: Node?)
    requires Rep(t, p, parent)
    ensures p == null <==> t.Leaf?
    ensures p != null ==> p == t.node && p in Nodes(t) && p.parent == parent && p.red == t.red
    ensures p != null ==> Rep(t.left, p.left, p) && Rep(t.right, p.right, p)
  {
  }

  // What the pointers at the focus show.
  lemma {:induction false} Look(path: Path, t: Tree, root: Node?, p: Node?, s: seq<Node>)
    requires At(path, t, root, p, s)
    ensures p == null <==> t.Leaf?
    ensures p != null ==> p == t.node && p.parent == Owner(path) && p.red == t.red
    ensures p != null ==> (p.left == null <==> t.left.Leaf?) && (p.right == null <==> t.right.Leaf?)
    ensures p != null && t.left.Br? ==> p.left == t.left.node && p.left.red == t.left.red
    ensures p != null && t.right.Br? ==> p.right == t.right.node && p.right.red == t.right.red
    ensures path.Top? ==> root == p
    ensures !path.Top? ==> path.node.red == path.red && path.node.parent == Owner(path.up)
    ensures path.InLeft? ==> path.node.left == p
    ensures path.InRight? ==> path.node.right == p
    ensures !path.Top? ==> path.node in PNodes(path) && path.node != p
    ensures path.InRight? && p != null ==> path.node.left != p
    ensures path.InLeft? && p != null ==> path.node.right != p
  {
    hide InOrder, Before, After, Distinct, Rep, Nodes;
    DistinctParts(path, t, s);
    RepView(t, p, Owner(path));
    if t.Br? {
      RepView(t.left, p.left, p);
      RepView(t.right, p.right, p);
    }
    match path
    case Top =>
    case InLeft(_, _, n, sib) => RepView(sib, n.right, n);
    case InRight(_, _, n, sib) => RepView(sib, n.left, n);
  }

  lemma {:induction false} AtApart(path: Path, t: Tree, s: seq<Node>)
    requires s == Before(path) + InOrder(t) + After(path) && Distinct(s)
    ensures Nodes(t) !! PNodes(path) && TreeApart(t) && PathApart(path)
    ensures t.Br? ==> TreeApart(t.left) && TreeApart(t.right)
    ensures t.Br? && t.left.Br? ==> TreeApart(t.left.left) && TreeApart(t.left.right)
    ensures t.Br? && t.right.Br? ==> TreeApart(t.right.left) && TreeApart(t.right.right)
  {
    DistinctParts(path, t, s);
    DistinctPath(path);
    DistinctTree(t);
    if t.Br? {
      DistinctTree(t.left);
      DistinctTree(t.right);
      if t.left.Br? { DistinctTree(t.left.left); DistinctTree(t.left.right); }
      if t.right.Br? { DistinctTree(t.right.left); DistinctTree(t.right.right); }
    }
  }

  ghost function Depth(p: Path): nat {
    if p.Top? then 0 else 1 + Depth(p.up)
  }

  // The focus never leaves the nodes of the sequence.
  lemma {:induction false} Within(path: Path, t: Tree, s: seq<Node>, ns: set<Node>)
    requires s == Before(path) + InOrder(t) + After(path) && forall n :: n in s ==> n in ns
    ensures PNodes(path) <= ns && Nodes(t) <= ns
  {
    NodesInOrder(t);
    NodesOfPath(path);
  }

  lemma {:induction false} AtTop(path: Path, t: Tree, root: Node?, p: Node?, s: seq<Node>)
    requires At(path, t, root, p, s)
    ensures Rep(Plug(path, t), root, null) && InOrder(Plug(path, t)) == s && Distinct(s)
    ensures t.Br? ==> root != null
    decreases path
  {
    if path.Top? {
      assert [] + InOrder(t) + [] == InOrder(t);
    } else {
      Up(path, t, root, p, s);
      AtTop(path.up, Refill(path, t), root, path.node, s);
    }
  }

  lemma {:induction false} AtSequence(path: Path, t: Tree, root: Node?, p: Node?, s: seq<Node>)
    requires At(path, t, root, p, s)
    ensures s == Before(path) + InOrder(t) + After(path) && Distinct(s)
  {
  }

  lemma {:induction false} AtRoot(t: Tree, root: Node?)
    requires Rep(t, root, null) && Distinct(InOrder(t))
    ensures At(Top, t, root, root, InOrder(t))
  {
    assert [] + InOrder(t) + [] == InOrder(t);
  }

  lemma {:induction false} Family(path: Path, t: Tree, root: Node?, p: Node?, s: seq<Node>)
    requires At(path, t, root, p, s) && t.Br?
    ensures t.node in Nodes(t)
    ensures t.left.Br? ==> t.left.node in Nodes(t) && t.left.node != t.node
    ensures t.right.Br? ==> t.right.node in Nodes(t) && t.right.node != t.node
    ensures t.left.Br? && t.right.Br? ==> t.left.node != t.right.node
  {
    AtApart(path, t, s);
    assert t.left.Br? ==> t.left.node in Nodes(t.left);
    assert t.right.Br? ==> t.right.node in Nodes(t.right);
  }

  lemma {:induction false} FocusWithin(path: Path, t: Tree, root: Node?, p: Node?, s: seq<Node>, ns: set<Node>)
    requires At(path, t, root, p, s) && forall n :: n in s ==> n in ns
    ensures PNodes(path) <= ns && Nodes(t) <= ns
    ensures p != null ==> p in ns
  {
    Within(path, t, s, ns);
    RepView(t, p, Owner(path));
  }

  lemma {:induction false} RootOnPath(path: Path, root: Node?, child: Node?)
    requires PathRep(path, root, child) && !path.Top?
    ensures root != null && root in PNodes(path)
  {
    if !path.up.Top? { RootOnPath(path.up, root, path.node); }
  }

  // Off the root, the focus is not the root.
  lemma {:induction false} NotRoot(path: Path, t: Tree, root: Node?, p: Node?, s: seq<Node>)
    requires At(path, t, root, p, s)
    ensures path.Top? <==> root == p
  {
    if !path.Top? {
      RootOnPath(path, root, p);
      AtApart(path, t, s);
      RepView(t, p, Owner(path));
    }
  }

  /*** The way to the smallest node of a subtree ***/

  // Frames of left descents below some other path.
  datatype Spine = SNil | SCons(up: Spine, red: bool, node: Node, sib: Tree)

  ghost function Onto(sp: Spine, base: Path): Path {
    match sp
    case SNil => base
    case SCons(up, c, n, s) => InLeft(Onto(up, base), c, n, s)
  }

  ghost function Close(sp: Spine, t: Tree): Tree
    decreases sp
  {
    match sp
    case SNil => t
    case SCons(up, c, n, s) => Close(up, Br(c, t, n, s))
  }

  // The pointer that fills the hole of a path.
  ghost function HolePtr(p: Path, root: Node?): Node?
    reads if p.Top? then {} else {p.node}
  {
    match p
    case Top => root
    case InLeft(_, _, n, _) => n.left
    case InRight(_, _, n, _) => n.right
  }

  lemma {:induction false} UpSpine(sp: Spine, base: Path, t: Tree, root: Node?, p: Node?, s: seq<Node>)
    requires At(Onto(sp, base), t, root, p, s)
    ensures At(base, Close(sp, t), root, HolePtr(base, root), s)
    decreases sp
  {
    match sp
    case SNil => Look(base, t, root, p, s);
    case SCons(up, c, n, sib) =>
      Up(Onto(sp, base), t, root, p, s);
      UpSpine(up, base, Br(c, t, n, sib), root, n, s);
  }

  lemma {:induction false} DownSpine(sp: Spine, base: Path, t: Tree, root: Node?, s: seq<Node>)
    requires At(base, Close(sp, t), root, HolePtr(base, root), s)
    ensures At(Onto(sp, base), t, root, HolePtr(Onto(sp, base), root), s)
    decreases sp
  {
    match sp
    case SNil =>
    case SCons(up, c, n, sib) =>
      DownSpine(up, base, Br(c, t, n, sib), root, s);
      var q := Onto(up, base);
      RepView(Br(c, t, n, sib), HolePtr(q, root), Owner(q));
      DownLeft(q, Br(c, t, n, sib), root, n, s);
  }

  // A spine leads to the first node in order.
  lemma {:induction false} SpineFirst(sp: Spine, c: bool, m: Node, t: Tree)
    ensures InOrder(Close(sp, Br(c, Leaf, m, t))) == [m] + InOrder(Close(sp, t))
    decreases sp
  {
    SpineInOrder(sp, Br(c, Leaf, m, t));
    SpineInOrder(sp, t);
    var r := SpineRest(sp);
    assert ([] + [m] + InOrder(t)) + r == [m] + (InOrder(t) + r);
  }

  ghost function SpineRest(sp: Spine): seq<Node> {
    match sp
    case SNil => []
    case SCons(up, _, n, s) => ([n] + InOrder(s)) + SpineRest(up)
  }

  lemma {:induction false} SpineInOrder(sp: Spine, t: Tree)
    ensures InOrder(Close(sp, t)) == InOrder(t) + SpineRest(sp)
    decreases sp
  {
    match sp
    case SNil => assert InOrder(t) + [] == InOrder(t);
    case SCons(up, c, n, s) =>
      SpineInOrder(up, Br(c, t, n, s));
      assert (InOrder(t) + [n] + InOrder(s)) + SpineRest(up) == InOrder(t) + (([n] + InOrder(s)) + SpineRest(up));
  }
}
