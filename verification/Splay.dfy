/** The top-down splay tree of openbsd-compat/sys/tree.h on real nodes, instantiated
    with dict.c's entries. A ghost tree of nodes describes the shape the pointers have;
    the in-order sequence of nodes is what every rotation and link preserves. */
module Splay {
  import opened Keys

  class Node {
    const key: Text
    var data: nat          // an opaque pointer, 0 being NULL
    var left: Node?
    var right: Node?

    constructor (key: Text, data: nat)
      ensures this.key == key && this.data == data && left == null && right == null
    {
      this.key, this.data := key, data;
      left, right := null, null;
    }
  }

  /*** Shapes and their in-order sequences ***/

  datatype Tree = Leaf | Br(left: Tree, node: Node, right: Tree)

  ghost function InOrder(t: Tree): seq<Node> {
    match t
    case Leaf => []
    case Br(l, n, r) => InOrder(l) + [n] + InOrder(r)
  }

  ghost function Nodes(t: Tree): set<Node>
  {
    match t
    case Leaf => {}
    case Br(l, n, r) => Nodes(l) + {n} + Nodes(r)
  }

  lemma {:induction false} NodesInOrder(t: Tree)
    ensures forall n :: n in Nodes(t) ==> n in InOrder(t)
    ensures forall n :: n in InOrder(t) ==> n in Nodes(t)
  {
    if t.Br? {
      NodesInOrder(t.left);
      NodesInOrder(t.right);
    }
  }

  // The pointers below p have exactly the shape t.
  ghost predicate Rep(t: Tree, p: Node?)
    reads Nodes(t)`left, Nodes(t)`right
  {
    match t
    case Leaf => p == null
    case Br(l, n, r) => p == n && Rep(l, n.left) && Rep(r, n.right)
  }

  ghost predicate Sorted(s: seq<Node>) {
    forall i, j :: 0 <= i < j < |s| ==> Less(s[i].key, s[j].key)
  }

  ghost predicate Below(s: seq<Node>, k: Text) {
    forall n :: n in s ==> Less(n.key, k)
  }

  ghost predicate Above(s: seq<Node>, k: Text) {
    forall n :: n in s ==> Less(k, n.key)
  }

  ghost predicate Disjoint(s: seq<Node>, t: seq<Node>) {
    forall n :: n in s ==> n !in t
  }

  // Sortedness makes the parts of a concatenation sorted and free of common nodes.
  lemma {:induction false} SortedSplit(s: seq<Node>, t: seq<Node>)
    requires Sorted(s + t)
    ensures Sorted(s) && Sorted(t) && Disjoint(s, t)
    ensures forall a, b :: a in s && b in t ==> Less(a.key, b.key)
  {
    var u := s + t;
    assert forall i :: 0 <= i < |s| ==> u[i] == s[i];
    assert forall i :: 0 <= i < |t| ==> u[|s| + i] == t[i];
    forall a, b | a in s && b in t ensures Less(a.key, b.key) && a != b {
      var i :| 0 <= i < |s| && s[i] == a;
      var j :| 0 <= j < |t| && t[j] == b;
      assert Less(u[i].key, u[|s| + j].key);
      CmpTotal(a.key, b.key);
    }
  }

  lemma {:induction false} SortedAround(l: Tree, n: Node, r: Tree)
    requires Sorted(InOrder(Br(l, n, r)))
    ensures Sorted(InOrder(l)) && Sorted(InOrder(r))
    ensures Below(InOrder(l), n.key) && Above(InOrder(r), n.key)
    ensures n !in Nodes(l) && n !in Nodes(r) && Nodes(l) !! Nodes(r)
  {
    SortedSplit(InOrder(l) + [n], InOrder(r));
    SortedSplit(InOrder(l), [n]);
    NodesInOrder(l);
    NodesInOrder(r);
    assert n in [n];
    assert n in InOrder(l) + [n];
    assert forall m :: m in InOrder(l) ==> m in InOrder(l) + [n];
  }

  lemma {:induction false} RotateRightInOrder(a: Tree, x: Node, b: Tree, y: Node, c: Tree)
    ensures InOrder(Br(Br(a, x, b), y, c)) == InOrder(Br(a, x, Br(b, y, c)))
  {
    var i, j, k := InOrder(a), InOrder(b), InOrder(c);
    assert (i + [x] + j) + [y] + k == i + [x] + (j + [y] + k);
  }

  /*** The left and right assembly trees of a splay in progress ***/

  // The left tree, from the link last made: its node's right pointer is the hole.
  datatype LeftTree = LTop | LLink(up: LeftTree, node: Node, sub: Tree)

  // The right tree: its node's left pointer is the hole.
  datatype RightTree = RTop | RLink(up: RightTree, node: Node, sub: Tree)

  ghost function LSeq(l: LeftTree): seq<Node> {
    match l
    case LTop => []
    case LLink(up, n, sub) => LSeq(up) + (InOrder(sub) + [n])
  }

  ghost function RSeq(r: RightTree): seq<Node> {
    match r
    case RTop => []
    case RLink(up, n, sub) => ([n] + InOrder(sub)) + RSeq(up)
  }

  ghost function LNodes(l: LeftTree): set<Node>
  {
    match l
    case LTop => {}
    case LLink(up, n, sub) => LNodes(up) + Nodes(sub) + {n}
  }

  ghost function RNodes(r: RightTree): set<Node>
  {
    match r
    case RTop => {}
    case RLink(up, n, sub) => {n} + Nodes(sub) + RNodes(up)
  }

  lemma {:induction false} NodesLSeq(l: LeftTree)
    ensures forall n :: n in LNodes(l) ==> n in LSeq(l)
    ensures forall n :: n in LSeq(l) ==> n in LNodes(l)
  {
    if l.LLink? {
      NodesLSeq(l.up);
      NodesInOrder(l.sub);
    }
  }

  lemma {:induction false} NodesRSeq(r: RightTree)
    ensures forall n :: n in RNodes(r) ==> n in RSeq(r)
    ensures forall n :: n in RSeq(r) ==> n in RNodes(r)
  {
    if r.RLink? {
      NodesRSeq(r.up);
      NodesInOrder(r.sub);
    }
  }

  // The node whose right (left) pointer the next link fills in.
  function LHole(l: LeftTree, dummy: Node): Node {
    match l
    case LTop => dummy
    case LLink(_, n, _) => n
  }

  function RHole(r: RightTree, dummy: Node): Node {
    match r
    case RTop => dummy
    case RLink(_, n, _) => n
  }

  ghost predicate LRep(l: LeftTree, dummy: Node)
    reads dummy`right, LNodes(l)
  {
    match l
    case LTop => true
    case LLink(up, n, sub) => LRep(up, dummy) && LHole(up, dummy).right == n && Rep(sub, n.left)
  }

  ghost predicate RRep(r: RightTree, dummy: Node)
    reads dummy`left, RNodes(r)
  {
    match r
    case RTop => true
    case RLink(up, n, sub) => RRep(up, dummy) && RHole(up, dummy).left == n && Rep(sub, n.right)
  }

  // Filling the hole.
  ghost function LClose(l: LeftTree, t: Tree): (u: Tree)
    ensures InOrder(u) == LSeq(l) + InOrder(t)
    decreases l
  {
    match l
    case LTop => t
    case LLink(up, n, sub) =>
      var v := Br(sub, n, t);
      assert LSeq(up) + InOrder(v) == LSeq(l) + InOrder(t);
      LClose(up, v)
  }

  ghost function RClose(r: RightTree, t: Tree): (u: Tree)
    ensures InOrder(u) == InOrder(t) + RSeq(r)
    decreases r
  {
    match r
    case RTop => t
    case RLink(up, n, sub) =>
      var v := Br(t, n, sub);
      assert InOrder(v) + RSeq(up) == InOrder(t) + RSeq(r);
      RClose(up, v)
  }

  lemma {:induction false} LCloseRep(l: LeftTree, t: Tree, dummy: Node)
    requires LRep(l, dummy) && Rep(t, LHole(l, dummy).right)
    ensures Rep(LClose(l, t), dummy.right)
    decreases l
  {
    if l.LLink? { LCloseRep(l.up, Br(l.sub, l.node, t), dummy); }
  }

  lemma {:induction false} RCloseRep(r: RightTree, t: Tree, dummy: Node)
    requires RRep(r, dummy) && Rep(t, RHole(r, dummy).left)
    ensures Rep(RClose(r, t), dummy.left)
    decreases r
  {
    if r.RLink? { RCloseRep(r.up, Br(t, r.node, r.sub), dummy); }
  }

  // The three parts of a splay in progress make up the sequence s.
  ghost predicate Parts(l: LeftTree, t: Tree, r: RightTree, s: seq<Node>) {
    s == LSeq(l) + InOrder(t) + RSeq(r) && Sorted(s)
  }

  lemma {:induction false} PartsDisjoint(l: LeftTree, t: Tree, r: RightTree, s: seq<Node>)
    requires Parts(l, t, r, s)
    ensures LNodes(l) !! Nodes(t) && LNodes(l) !! RNodes(r) && Nodes(t) !! RNodes(r)
    ensures Sorted(LSeq(l)) && Sorted(InOrder(t)) && Sorted(RSeq(r))
  {
    SortedSplit(LSeq(l) + InOrder(t), RSeq(r));
    SortedSplit(LSeq(l), InOrder(t));
    NodesLSeq(l);
    NodesInOrder(t);
    NodesRSeq(r);
    assert forall n :: n in LSeq(l) ==> n in LSeq(l) + InOrder(t);
    assert forall n :: n in InOrder(t) ==> n in LSeq(l) + InOrder(t);
  }

  // What the pointer updates need: nothing is shared, and dummy is outside.
  ghost predicate Apart(l: LeftTree, t: Tree, r: RightTree, dummy: Node) {
    && LNodes(l) !! Nodes(t) && LNodes(l) !! RNodes(r) && Nodes(t) !! RNodes(r)
    && dummy !in LNodes(l) && dummy !in Nodes(t) && dummy !in RNodes(r)
    && (t.Br? ==> t.node !in Nodes(t.left) && t.node !in Nodes(t.right) && Nodes(t.left) !! Nodes(t.right))
    && (l.LLink? ==> l.node !in LNodes(l.up) && l.node !in Nodes(l.sub))
    && (r.RLink? ==> r.node !in RNodes(r.up) && r.node !in Nodes(r.sub))
  }

  lemma {:induction false} Separate(l: LeftTree, t: Tree, r: RightTree, s: seq<Node>, dummy: Node)
    requires Parts(l, t, r, s) && dummy !in s && t.Br?
    ensures Apart(l, t, r, dummy)
  {
    PartsDisjoint(l, t, r, s);
    SortedAround(t.left, t.node, t.right);
    if l.LLink? { LHoleFresh(l); }
    if r.RLink? { RHoleFresh(r); }
    NodesLSeq(l);
    NodesInOrder(t);
    NodesRSeq(r);
  }

  lemma {:induction false} LinkLeftParts(l: LeftTree, t: Tree, r: RightTree, s: seq<Node>)
    requires Parts(l, t, r, s) && t.Br?
    ensures Parts(l, t.left, RLink(r, t.node, t.right), s)
  {
    var a, b, n, c, d := LSeq(l), InOrder(t.left), t.node, InOrder(t.right), RSeq(r);
    assert a + b + (([n] + c) + d) == a + (b + [n] + c) + d;
  }

  lemma {:induction false} LinkRightParts(l: LeftTree, t: Tree, r: RightTree, s: seq<Node>)
    requires Parts(l, t, r, s) && t.Br?
    ensures Parts(LLink(l, t.node, t.left), t.right, r, s)
  {
    var a, b, n, c, d := LSeq(l), InOrder(t.left), t.node, InOrder(t.right), RSeq(r);
    assert (a + (b + [n])) + c + d == a + (b + [n] + c) + d;
  }

  lemma {:induction false} AssembledInOrder(l: LeftTree, t: Tree, r: RightTree, s: seq<Node>)
    requires Parts(l, t, r, s) && t.Br?
    ensures InOrder(Br(LClose(l, t.left), t.node, RClose(r, t.right))) == s
    ensures t.node !in Nodes(LClose(l, t.left)) && t.node !in Nodes(RClose(r, t.right))
  {
    var a, b, n, c, d := LSeq(l), InOrder(t.left), t.node, InOrder(t.right), RSeq(r);
    assert (a + b) + [n] + (c + d) == a + (b + [n] + c) + d;
    SortedAround(LClose(l, t.left), t.node, RClose(r, t.right));
  }

  lemma {:induction false} ClosedNodes(l: LeftTree, t: Tree)
    ensures Nodes(LClose(l, t)) == LNodes(l) + Nodes(t)
    decreases l
  {
    if l.LLink? { ClosedNodes(l.up, Br(l.sub, l.node, t)); }
  }

  lemma {:induction false} LHoleFresh(l: LeftTree)
    requires l.LLink? && Sorted(LSeq(l))
    ensures l.node !in LNodes(l.up) && l.node !in Nodes(l.sub)
  {
    SortedSplit(LSeq(l.up), InOrder(l.sub) + [l.node]);
    SortedSplit(InOrder(l.sub), [l.node]);
    assert l.node in InOrder(l.sub) + [l.node];
    assert l.node in [l.node];
    NodesLSeq(l.up);
    NodesInOrder(l.sub);
  }

  lemma {:induction false} RHoleFresh(r: RightTree)
    requires r.RLink? && Sorted(RSeq(r))
    ensures r.node !in RNodes(r.up) && r.node !in Nodes(r.sub)
  {
    SortedSplit([r.node] + InOrder(r.sub), RSeq(r.up));
    SortedSplit([r.node], InOrder(r.sub));
    assert r.node in [r.node] + InOrder(r.sub);
    assert r.node in [r.node];
    NodesRSeq(r.up);
    NodesInOrder(r.sub);
  }

  // A splay in progress: the pointers realise the three parts of the sequence s.
  ghost predicate InProgress(l: LeftTree, t: Tree, r: RightTree, s: seq<Node>, root: Node?, dummy: Node)
    reads dummy, LNodes(l), Nodes(t), RNodes(r)
  {
    Parts(l, t, r, s) && dummy !in s && LRep(l, dummy) && Rep(t, root) && RRep(r, dummy)
  }

  class Head {
    var root: Node?
    ghost var tree: Tree

    ghost predicate Valid()
      reads `root, `tree, Nodes(tree)`left, Nodes(tree)`right
    {
      Rep(tree, root) && Sorted(InOrder(tree))
    }

    constructor ()
      ensures Valid() && tree == Leaf
    {
      root, tree := null, Leaf;
    }

    // SPLAY_ROTATE_RIGHT
    method RotateRight(tmp: Node, ghost t: Tree) returns (ghost u: Tree)
      requires Rep(t, root) && Sorted(InOrder(t))
      requires t.Br? && t.left.Br? && tmp == t.left.node
      modifies `root, t.node`left, tmp`right
      ensures u == Br(t.left.left, tmp, Br(t.left.right, t.node, t.right))
      ensures Rep(u, root) && InOrder(u) == InOrder(t)
    {
      hide InOrder, Sorted;
      SortedAround(t.left, t.node, t.right);
      SortedAround(t.left.left, tmp, t.left.right);
      RotateRightInOrder(t.left.left, tmp, t.left.right, t.node, t.right);
      root.left := tmp.right;
      tmp.right := root;
      root := tmp;
      u := Br(t.left.left, tmp, Br(t.left.right, t.node, t.right));
      assert Rep(t.left.right, t.node.left) && Rep(t.right, t.node.right) && Rep(t.left.left, tmp.left);
    }

    // SPLAY_ROTATE_LEFT
    method RotateLeft(tmp: Node, ghost t: Tree) returns (ghost u: Tree)
      requires Rep(t, root) && Sorted(InOrder(t))
      requires t.Br? && t.right.Br? && tmp == t.right.node
      modifies `root, t.node`right, tmp`left
      ensures u == Br(Br(t.left, t.node, t.right.left), tmp, t.right.right)
      ensures Rep(u, root) && InOrder(u) == InOrder(t)
    {
      hide InOrder, Sorted;
      SortedAround(t.left, t.node, t.right);
      SortedAround(t.right.left, tmp, t.right.right);
      RotateRightInOrder(t.left, t.node, t.right.left, tmp, t.right.right);
      root.right := tmp.left;
      tmp.left := root;
      root := tmp;
      u := Br(Br(t.left, t.node, t.right.left), tmp, t.right.right);
      assert Rep(t.right.left, t.node.right) && Rep(t.left, t.node.left) && Rep(t.right.right, tmp.right);
    }

    // SPLAY_LINKLEFT
    method LinkLeft(right: Node, ghost l: LeftTree, ghost t: Tree, ghost r: RightTree,
                    ghost s: seq<Node>, ghost dummy: Node)
      returns (right': Node, ghost r': RightTree)
      requires InProgress(l, t, r, s, root, dummy) && t.Br? && right == RHole(r, dummy)
      modifies `root, right`left
      ensures right' == RHole(r', dummy) && r' == RLink(r, t.node, t.right)
      ensures InProgress(l, t.left, r', s, root, dummy)
    {
      hide InOrder, LSeq, RSeq, Sorted, Parts;
      Separate(l, t, r, s, dummy);
      LinkLeftParts(l, t, r, s);
      r' := RLink(r, t.node, t.right);
      right.left := root;
      right' := root;
      root := root.left;
      assert RRep(r, dummy);
    }

    // SPLAY_LINKRIGHT
    method LinkRight(left: Node, ghost l: LeftTree, ghost t: Tree, ghost r: RightTree,
                     ghost s: seq<Node>, ghost dummy: Node)
      returns (left': Node, ghost l': LeftTree)
      requires InProgress(l, t, r, s, root, dummy) && t.Br? && left == LHole(l, dummy)
      modifies `root, left`right
      ensures left' == LHole(l', dummy) && l' == LLink(l, t.node, t.left)
      ensures InProgress(l', t.right, r, s, root, dummy)
    {
      hide InOrder, LSeq, RSeq, Sorted, Parts;
      Separate(l, t, r, s, dummy);
      LinkRightParts(l, t, r, s);
      l' := LLink(l, t.node, t.left);
      left.right := root;
      left' := root;
      root := root.right;
      assert LRep(l, dummy);
    }

    // SPLAY_ASSEMBLE, one statement at a time: the two holes are filled with what is
    // left of the middle tree, then the root takes over both assembly trees.
    method FillLeft(dummy: Node, left: Node, ghost l: LeftTree, ghost t: Tree, ghost r: RightTree)
      requires LRep(l, dummy) && Rep(t, root) && RRep(r, dummy) && t.Br? && left == LHole(l, dummy)
      requires Apart(l, t, r, dummy)
      modifies left`right
      ensures root == t.node
      ensures Rep(LClose(l, t.left), dummy.right) && Rep(t.right, root.right) && RRep(r, dummy)
    {
      left.right := root.left;
      assert LRep(l, dummy);
      LCloseRep(l, t.left, dummy);
    }

    method FillRight(dummy: Node, right: Node, ghost u: Tree, ghost t: Tree, ghost r: RightTree)
      requires root != null && Rep(u, dummy.right) && Rep(t, root.right)
      requires RRep(r, dummy) && right == RHole(r, dummy)
      requires right !in Nodes(u) && right !in Nodes(t)
      requires r.RLink? ==> r.node !in RNodes(r.up) && r.node !in Nodes(r.sub) && r.node != dummy
      modifies right`left
      ensures Rep(u, dummy.right) && Rep(RClose(r, t), dummy.left)
    {
      right.left := root.right;
      assert RRep(r, dummy);
      RCloseRep(r, t, dummy);
    }

    method TakeOver(dummy: Node, ghost u: Tree, ghost v: Tree)
      requires root != null && root != dummy && root !in Nodes(u) && root !in Nodes(v)
      requires Rep(u, dummy.right) && Rep(v, dummy.left)
      modifies root`left, root`right
      ensures Rep(Br(u, root, v), root)
    {
      root.left := dummy.right;
      root.right := dummy.left;
    }

    method Assemble(dummy: Node, left: Node, right: Node, ghost l: LeftTree, ghost t: Tree, ghost r: RightTree,
                    ghost s: seq<Node>)
      requires InProgress(l, t, r, s, root, dummy) && t.Br?
      requires left == LHole(l, dummy) && right == RHole(r, dummy)
      modifies `tree, left`right, right`left, t.node`left, t.node`right
      ensures Valid() && InOrder(tree) == s
      ensures tree == Br(LClose(l, t.left), t.node, RClose(r, t.right))
    {
      hide InOrder, LSeq, RSeq, Sorted, LClose, RClose, LRep, RRep, Rep, LNodes;
      Separate(l, t, r, s, dummy);
      AssembledInOrder(l, t, r, s);
      ClosedNodes(l, t.left);
      ghost var u, v := LClose(l, t.left), RClose(r, t.right);
      FillLeft(dummy, left, l, t, r);
      FillRight(dummy, right, u, t.right, r);
      tree := Br(u, t.node, v);
      TakeOver(dummy, u, v);
    }

    // A rotation at the root of the middle tree disturbs neither assembly tree.
    method TurnRight(tmp: Node, ghost l: LeftTree, ghost t: Tree, ghost r: RightTree,
                     ghost s: seq<Node>, ghost dummy: Node) returns (ghost u: Tree)
      requires InProgress(l, t, r, s, root, dummy) && t.Br? && t.left.Br? && tmp == t.left.node
      modifies `root, t.node`left, tmp`right
      ensures u == Br(t.left.left, tmp, Br(t.left.right, t.node, t.right))
      ensures InProgress(l, u, r, s, root, dummy)
    {
      hide InOrder, LSeq, RSeq, Sorted;
      Separate(l, t, r, s, dummy);
      PartsDisjoint(l, t, r, s);
      assert allocated(LNodes(l)) && allocated(RNodes(r));
      assert tmp in Nodes(t) && t.node in Nodes(t);
      u := RotateRight(tmp, t);
      assert LRep(l, dummy) && RRep(r, dummy);
    }

    method TurnLeft(tmp: Node, ghost l: LeftTree, ghost t: Tree, ghost r: RightTree,
                    ghost s: seq<Node>, ghost dummy: Node) returns (ghost u: Tree)
      requires InProgress(l, t, r, s, root, dummy) && t.Br? && t.right.Br? && tmp == t.right.node
      modifies `root, t.node`right, tmp`left
      ensures u == Br(Br(t.left, t.node, t.right.left), tmp, t.right.right)
      ensures InProgress(l, u, r, s, root, dummy)
    {
      hide InOrder, LSeq, RSeq, Sorted;
      Separate(l, t, r, s, dummy);
      PartsDisjoint(l, t, r, s);
      assert allocated(LNodes(l)) && allocated(RNodes(r));
      assert tmp in Nodes(t) && t.node in Nodes(t);
      u := RotateLeft(tmp, t);
      assert LRep(l, dummy) && RRep(r, dummy);
    }

    // name##_SPLAY: bring the key, or a neighbour of where it belongs, to the root.
    method Splay(k: Text)
      requires Valid() && root != null
      modifies this, Nodes(tree)`left, Nodes(tree)`right
      ensures Valid() && InOrder(tree) == old(InOrder(tree)) && tree.Br?
      ensures Below(InOrder(tree.left), k) && Above(InOrder(tree.right), k)
    {
      hide InOrder, LSeq, RSeq, Sorted, LRep, RRep, Rep, Below, Above, StrCmp, Parts, LClose, RClose, LNodes, RNodes, Nodes;
      ghost var l, t, r, s, ns := LTop, tree, RTop, InOrder(tree), Nodes(tree);
      assert allocated(ns);
      var dummy := new Node([], 0);
      var left, right := dummy, dummy;
      assert dummy !in ns;
      assert Rep(t, root);
      StartInProgress(t, s, root, dummy, k);
      View(t, root);
      NodesInOrder(t);
      while true
        invariant t.Br? && InProgress(l, t, r, s, root, dummy)
        invariant left == LHole(l, dummy) && right == RHole(r, dummy)
        invariant Below(LSeq(l), k) && Above(RSeq(r), k)
        decreases t
      {
        PartsNodes(l, t, r, s, ns);
        View(t, root);
        var comp := StrCmp(k, root.key);
        CmpTotal(k, root.key);
        if comp == 0 { break; }
        if comp < 0 {
          var tmp := root.left;
          if tmp == null { break; }
          if StrCmp(k, tmp.key) < 0 {
            t := TurnRight(tmp, l, t, r, s, dummy);
            View(t, root);
            if root.left == null { break; }
          }
          LinkLeftAbove(l, t, r, s, k);
          right, r := LinkLeft(right, l, t, r, s, dummy);
          t := t.left;
        } else {
          var tmp := root.right;
          if tmp == null { break; }
          CmpTotal(k, tmp.key);
          if StrCmp(k, tmp.key) > 0 {
            t := TurnLeft(tmp, l, t, r, s, dummy);
            View(t, root);
            if root.right == null { break; }
          }
          LinkRightBelow(l, t, r, s, k);
          left, l := LinkRight(left, l, t, r, s, dummy);
          t := t.right;
        }
      }
      PartsNodes(l, t, r, s, ns);
      SplayExit(l, t, r, s, k);
      Assemble(dummy, left, right, l, t, r, s);
    }

    // name##_SPLAY_MINMAX: bring the smallest (comp < 0) or largest node to the root.
    method SplayMinMax(comp: int)
      requires Valid() && root != null && comp != 0
      modifies this, Nodes(tree)`left, Nodes(tree)`right
      ensures Valid() && InOrder(tree) == old(InOrder(tree)) && tree.Br?
      ensures if comp < 0 then tree.left == Leaf else tree.right == Leaf
    {
      hide InOrder, LSeq, RSeq, Sorted, LRep, RRep, Rep, Parts, LNodes, RNodes, Nodes;
      ghost var l, t, r, s, ns := LTop, tree, RTop, InOrder(tree), Nodes(tree);
      assert allocated(ns);
      var dummy := new Node([], 0);
      var left, right := dummy, dummy;
      assert dummy !in ns;
      assert Rep(t, root);
      StartInProgress(t, s, root, dummy, []);
      View(t, root);
      NodesInOrder(t);
      while true
        invariant t.Br? && InProgress(l, t, r, s, root, dummy)
        invariant left == LHole(l, dummy) && right == RHole(r, dummy)
        invariant if comp < 0 then l == LTop else r == RTop
        decreases t
      {
        PartsNodes(l, t, r, s, ns);
        View(t, root);
        if comp < 0 {
          var tmp := root.left;
          if tmp == null { break; }
          t := TurnRight(tmp, l, t, r, s, dummy);
          View(t, root);
          if root.left == null { break; }
          right, r := LinkLeft(right, l, t, r, s, dummy);
          t := t.left;
        } else {
          var tmp := root.right;
          if tmp == null { break; }
          t := TurnLeft(tmp, l, t, r, s, dummy);
          View(t, root);
          if root.right == null { break; }
          left, l := LinkRight(left, l, t, r, s, dummy);
          t := t.right;
        }
      }
      PartsNodes(l, t, r, s, ns);
      Assemble(dummy, left, right, l, t, r, s);
    }

    // name##_SPLAY_FIND
    method Find(k: Text) returns (n: Node?)
      requires Valid()
      modifies this, Nodes(tree)`left, Nodes(tree)`right
      ensures Valid() && InOrder(tree) == old(InOrder(tree))
      ensures n != null ==> n.key == k && n in InOrder(tree) && tree.Br? && tree.node == n
      ensures n == null ==> forall m :: m in InOrder(tree) ==> m.key != k
    {
      if root == null { return null; }
      Splay(k);
      CmpTotal(k, root.key);
      RootDecides(tree, k);
      if StrCmp(k, root.key) == 0 { return root; }
      return null;
    }

    // name##_SPLAY_INSERT: elm goes between the nodes below and above its key; a node
    // with the same key is returned instead, leaving the nodes as they were.
    method Insert(elm: Node) returns (dup: Node?, ghost below: seq<Node>, ghost above: seq<Node>)
      requires Valid() && elm !in Nodes(tree)
      modifies this, Nodes(tree)`left, Nodes(tree)`right, elm`left, elm`right
      ensures Valid()
      ensures dup != null ==> dup.key == elm.key && dup in InOrder(tree) && InOrder(tree) == old(InOrder(tree))
      ensures dup == null ==> old(InOrder(tree)) == below + above && InOrder(tree) == below + [elm] + above
      ensures dup == null ==> Below(below, elm.key) && Above(above, elm.key)
    {
      hide Sorted, Below, Above, InOrder, StrCmp, Less;
      dup, below, above := null, [], [];
      EmptyFacts(elm);
      if root == null {
        elm.left, elm.right := null, null;
        tree := Br(Leaf, elm, Leaf);
        root := elm;
      } else {
        ghost var t := tree;
        Splay(elm.key);
        SameNodes(t, tree);
        View(tree, root);
        RootDecides(tree, elm.key);
        CmpTotal(elm.key, root.key);
        var comp := StrCmp(elm.key, root.key);
        if comp < 0 {
          below, above := PutBefore(elm);
        } else if comp > 0 {
          below, above := PutAfter(elm);
        } else {
          return root, below, above;
        }
      }
    }

    // elm becomes the root, with the old root as its right or left child.
    method PutBefore(elm: Node) returns (ghost below: seq<Node>, ghost above: seq<Node>)
      requires Valid() && tree.Br? && elm !in Nodes(tree) && Less(elm.key, tree.node.key)
      requires Below(InOrder(tree.left), elm.key) && Above(InOrder(tree.right), elm.key)
      modifies this, root`left, elm`left, elm`right
      ensures Valid() && InOrder(tree) == below + [elm] + above && old(InOrder(tree)) == below + above
      ensures Below(below, elm.key) && Above(above, elm.key)
    {
      hide Sorted, Below, Above, InOrder, Less;
      ghost var t := tree;
      below, above := InOrder(t.left), [t.node] + InOrder(t.right);
      SortedAround(t.left, t.node, t.right);
      InsertBefore(t, elm);
      elm.left := root.left;
      elm.right := root;
      root.left := null;
      root := elm;
      tree := Br(t.left, elm, Br(Leaf, t.node, t.right));
      assert Rep(t.left, elm.left) && Rep(t.right, t.node.right);
      assert Rep(Br(Leaf, t.node, t.right), elm.right);
    }

    method PutAfter(elm: Node) returns (ghost below: seq<Node>, ghost above: seq<Node>)
      requires Valid() && tree.Br? && elm !in Nodes(tree) && Less(tree.node.key, elm.key)
      requires Below(InOrder(tree.left), elm.key) && Above(InOrder(tree.right), elm.key)
      modifies this, root`right, elm`left, elm`right
      ensures Valid() && InOrder(tree) == below + [elm] + above && old(InOrder(tree)) == below + above
      ensures Below(below, elm.key) && Above(above, elm.key)
    {
      hide Sorted, Below, Above, InOrder, Less;
      ghost var t := tree;
      below, above := InOrder(t.left) + [t.node], InOrder(t.right);
      SortedAround(t.left, t.node, t.right);
      InsertAfter(t, elm);
      elm.right := root.right;
      elm.left := root;
      root.right := null;
      root := elm;
      tree := Br(Br(t.left, t.node, Leaf), elm, t.right);
      assert Rep(t.left, t.node.left) && Rep(t.right, elm.right);
      assert Rep(Br(t.left, t.node, Leaf), elm.left);
    }

    // name##_SPLAY_REMOVE. The left subtree is splayed for the same key, which leaves
    // its root without a right child, so the right subtree can be hung there.
    method Remove(k: Text) returns (gone: Node?, ghost below: seq<Node>, ghost above: seq<Node>)
      requires Valid()
      modifies this, Nodes(tree)`left, Nodes(tree)`right
      ensures Valid()
      ensures gone == null ==> InOrder(tree) == old(InOrder(tree)) && forall m :: m in InOrder(tree) ==> m.key != k
      ensures gone != null ==> gone.key == k && InOrder(tree) == below + above
      ensures gone != null ==> old(InOrder(tree)) == below + [gone] + above
    {
      hide Sorted, Below, Above, StrCmp;
      gone, below, above := null, [], [];
      if root == null { return; }
      Splay(k);
      CmpTotal(k, root.key);
      RootDecides(tree, k);
      if StrCmp(k, root.key) != 0 { return; }
      gone, below, above := root, InOrder(tree.left), InOrder(tree.right);
      SameNodes(tree, old(tree));
      RemoveRoot(k);
    }

    // The rest of name##_SPLAY_REMOVE: the root goes, its two subtrees are joined.
    method RemoveRoot(k: Text)
      requires Valid() && root != null && root.key == k
      modifies this, Nodes(tree)`left, Nodes(tree)`right
      ensures Valid() && InOrder(tree) == old(InOrder(tree.left) + InOrder(tree.right))
    {
      hide Sorted, Below, Above, StrCmp;
      ghost var t := tree;
      SortedAround(t.left, t.node, t.right);
      assert Nodes(t.left) <= Nodes(t) && Nodes(t.right) <= Nodes(t);
      View(t, root);
      if root.left == null {
        root := root.right;
        tree := t.right;
        assert InOrder(t.left) == [];
      } else {
        var tmp := root.right;
        root := root.left;
        tree := t.left;
        assert allocated(Nodes(t.right));
        Splay(k);
        SameNodes(tree, t.left);
        BelowThenAbove(t.left, tree, k);
        assert Rep(t.right, tmp);
        HangRight(tmp, t, k);
      }
    }

    // Hanging the right subtree below a root that has no right child.
    method HangRight(tmp: Node?, ghost t: Tree, ghost k: Text)
      requires Valid() && tree.Br? && tree.right == Leaf && t.Br?
      requires Sorted(InOrder(t)) && InOrder(tree) == InOrder(t.left) && Rep(t.right, tmp)
      modifies this`tree, root`right
      ensures Valid() && InOrder(tree) == InOrder(t.left) + InOrder(t.right)
    {
      hide Sorted;
      SortedAround(t.left, t.node, t.right);
      SameNodes(tree, t.left);
      SortedAround(tree.left, tree.node, tree.right);
      SortedWithout(InOrder(t.left), t.node, InOrder(t.right));
      assert InOrder(tree) == InOrder(tree.left) + [tree.node];
      root.right := tmp;
      assert Rep(tree.left, root.left);
      tree := Br(tree.left, tree.node, t.right);
    }

    // SPLAY_MIN
    method Min() returns (n: Node?)
      requires Valid()
      modifies this, Nodes(tree)`left, Nodes(tree)`right
      ensures Valid() && InOrder(tree) == old(InOrder(tree))
      ensures n == if InOrder(tree) == [] then null else InOrder(tree)[0]
    {
      if root == null { return null; }
      SplayMinMax(-1);
      return root;
    }

    // name##_SPLAY_NEXT
    method Next(elm: Node, ghost i: nat) returns (n: Node?)
      requires Valid() && i < |InOrder(tree)| && InOrder(tree)[i] == elm
      modifies this, Nodes(tree)`left, Nodes(tree)`right
      ensures Valid() && InOrder(tree) == old(InOrder(tree))
      ensures n == if i + 1 < |InOrder(tree)| then InOrder(tree)[i + 1] else null
    {
      hide Sorted, Below, Above, StrCmp;
      Splay(elm.key);
      RootIs(tree, elm, i);
      View(tree, root);
      if elm.right != null {
        n := elm.right;
        ghost var t := tree.right;
        View(t, n);
        assert allocated(Nodes(tree));
        while n.left != null
          invariant t.Br? && Rep(t, n) && InOrder(t)[0] == InOrder(tree.right)[0]
          modifies {}
          decreases t
        {
          View(t, n);
          n := n.left;
          t := t.left;
        }
        View(t, n);
      } else {
        n := null;
      }
    }
  }

  // After a splay the root alone decides whether the key is present.
  lemma {:induction false} RootDecides(t: Tree, k: Text)
    requires t.Br? && Below(InOrder(t.left), k) && Above(InOrder(t.right), k)
    ensures t.node in InOrder(t)
    ensures t.node.key != k ==> forall m :: m in InOrder(t) ==> m.key != k
  {
    forall m | m in InOrder(t.left) ensures m.key != k { CmpTotal(m.key, k); }
    forall m | m in InOrder(t.right) ensures m.key != k { CmpTotal(k, m.key); }
  }

  lemma {:induction false} EmptyFacts(elm: Node)
    ensures InOrder(Leaf) == [] && InOrder(Br(Leaf, elm, Leaf)) == [] + [elm] + []
    ensures Sorted([] + [elm] + []) && Below([], elm.key) && Above([], elm.key)
  {
  }

  lemma {:induction false} SameNodes(t: Tree, u: Tree)
    ensures InOrder(t) == InOrder(u) ==> Nodes(t) == Nodes(u)
  {
    NodesInOrder(t);
    NodesInOrder(u);
  }

  // A sequence stays sorted with a node inserted where its key belongs.
  lemma {:induction false} SortedInsert(a: seq<Node>, n: Node, b: seq<Node>)
    requires Sorted(a + b) && Below(a, n.key) && Above(b, n.key)
    ensures Sorted(a + [n] + b)
  {
    SortedSplit(a, b);
    var c := a + [n] + b;
    assert forall i :: 0 <= i < |a| ==> c[i] == a[i] && a[i] in a;
    assert forall i :: 0 <= i < |b| ==> c[|a| + 1 + i] == b[i] && b[i] in b;
    forall i, j | 0 <= i < j < |c| ensures Less(c[i].key, c[j].key) {
      if j == |a| {
        assert c[i] in a;
      } else if i == |a| {
        assert c[j] in b;
      } else if i < |a| < j {
        assert c[i] in a && c[j] in b;
      } else if i > |a| {
        assert c[i] == b[i - |a| - 1] && c[j] == b[j - |a| - 1];
      }
    }
  }

  lemma {:induction false} SortedWithout(a: seq<Node>, n: Node, b: seq<Node>)
    requires Sorted(a + [n] + b)
    ensures Sorted(a + b)
  {
    var c, d := a + [n] + b, a + b;
    forall i, j | 0 <= i < j < |d| ensures Less(d[i].key, d[j].key) {
      var i', j' := if i < |a| then i else i + 1, if j < |a| then j else j + 1;
      assert d[i] == c[i'] && d[j] == c[j'];
    }
  }

  lemma {:induction false} InsertBefore(t: Tree, elm: Node)
    requires t.Br? && Sorted(InOrder(t)) && Less(elm.key, t.node.key)
    requires Below(InOrder(t.left), elm.key) && Above(InOrder(t.right), elm.key)
    ensures var a, b := InOrder(t.left), [t.node] + InOrder(t.right);
            && InOrder(t) == a + b && InOrder(Br(t.left, elm, Br(Leaf, t.node, t.right))) == a + [elm] + b
            && Sorted(a + [elm] + b) && Above(b, elm.key)
  {
    var a, b := InOrder(t.left), [t.node] + InOrder(t.right);
    assert InOrder(t) == a + b;
    assert InOrder(Br(Leaf, t.node, t.right)) == b;
    SortedInsert(a, elm, b);
  }

  lemma {:induction false} InsertAfter(t: Tree, elm: Node)
    requires t.Br? && Sorted(InOrder(t)) && Less(t.node.key, elm.key)
    requires Below(InOrder(t.left), elm.key) && Above(InOrder(t.right), elm.key)
    ensures var a, b := InOrder(t.left) + [t.node], InOrder(t.right);
            && InOrder(t) == a + b && InOrder(Br(Br(t.left, t.node, Leaf), elm, t.right)) == a + [elm] + b
            && Sorted(a + [elm] + b) && Below(a, elm.key)
  {
    var a, b := InOrder(t.left) + [t.node], InOrder(t.right);
    assert InOrder(Br(t.left, t.node, Leaf)) == a;
    SortedInsert(a, elm, b);
  }

  // A tree below k, splayed for k, has nothing to the right of its root.
  lemma {:induction false} BelowThenAbove(t: Tree, u: Tree, k: Text)
    requires Below(InOrder(t), k) && InOrder(u) == InOrder(t) && u.Br? && Above(InOrder(u.right), k)
    ensures u.right == Leaf
  {
    if u.right.Br? {
      var n := u.right.node;
      assert n in InOrder(u.right);
      assert n in InOrder(u);
      CmpTotal(n.key, k);
    }
  }

  lemma {:induction false} RootIs(t: Tree, elm: Node, i: nat)
    requires t.Br? && Sorted(InOrder(t)) && i < |InOrder(t)| && InOrder(t)[i] == elm
    requires Below(InOrder(t.left), elm.key) && Above(InOrder(t.right), elm.key)
    ensures t.node == elm && i == |InOrder(t.left)|
  {
    var s := InOrder(t);
    var m := |InOrder(t.left)|;
    CmpTotal(elm.key, elm.key);
    assert forall x :: 0 <= x < m ==> s[x] in InOrder(t.left);
    assert forall x :: m < x < |s| ==> s[x] == InOrder(t.right)[x - m - 1] && s[x] in InOrder(t.right);
  }

  lemma {:induction false} StartInProgress(t: Tree, s: seq<Node>, root: Node?, dummy: Node, k: Text)
    requires Rep(t, root) && s == InOrder(t) && Sorted(s) && dummy !in Nodes(t)
    ensures InProgress(LTop, t, RTop, s, root, dummy)
    ensures Below(LSeq(LTop), k) && Above(RSeq(RTop), k)
  {
    NodesInOrder(t);
    assert [] + s + [] == s;
  }

  // The pointers at the root of a tree show its top two levels.
  lemma {:induction false} View(t: Tree, p: Node?)
    requires Rep(t, p)
    ensures p == null <==> t.Leaf?
    ensures p != null ==> p == t.node
    ensures p != null ==> (p.left == null <==> t.left.Leaf?) && (t.left.Br? ==> t.left.node == p.left)
    ensures p != null ==> (p.right == null <==> t.right.Leaf?) && (t.right.Br? ==> t.right.node == p.right)
  {
  }

  lemma {:induction false} PartsNodes(l: LeftTree, t: Tree, r: RightTree, s: seq<Node>, ns: set<Node>)
    requires Parts(l, t, r, s) && forall n :: n in s ==> n in ns
    ensures LNodes(l) <= ns && Nodes(t) <= ns && RNodes(r) <= ns
    ensures l.LLink? ==> l.node in ns
    ensures r.RLink? ==> r.node in ns
    ensures t.Br? ==> t.node in ns && (t.left.Br? ==> t.left.node in ns) && (t.right.Br? ==> t.right.node in ns)
  {
    NodesLSeq(l);
    NodesInOrder(t);
    NodesRSeq(r);
    assert t.Br? && t.left.Br? ==> t.left.node in Nodes(t.left);
    assert t.Br? && t.right.Br? ==> t.right.node in Nodes(t.right);
  }

  lemma {:induction false} LinkLeftAbove(l: LeftTree, t: Tree, r: RightTree, s: seq<Node>, k: Text)
    requires Parts(l, t, r, s) && t.Br? && Above(RSeq(r), k) && Less(k, t.node.key)
    ensures Above(RSeq(RLink(r, t.node, t.right)), k)
  {
    PartsDisjoint(l, t, r, s);
    SortedAround(t.left, t.node, t.right);
    forall n | n in InOrder(t.right) ensures Less(k, n.key) { LessTrans(k, t.node.key, n.key); }
  }

  lemma {:induction false} LinkRightBelow(l: LeftTree, t: Tree, r: RightTree, s: seq<Node>, k: Text)
    requires Parts(l, t, r, s) && t.Br? && Below(LSeq(l), k) && Less(t.node.key, k)
    ensures Below(LSeq(LLink(l, t.node, t.left)), k)
  {
    PartsDisjoint(l, t, r, s);
    SortedAround(t.left, t.node, t.right);
    forall n | n in InOrder(t.left) ensures Less(n.key, k) { LessTrans(n.key, t.node.key, k); }
  }

  // Where the splay loop stops, everything left of the root is below the key and
  // everything right of it is above.
  lemma {:induction false} SplayExit(l: LeftTree, t: Tree, r: RightTree, s: seq<Node>, k: Text)
    requires Parts(l, t, r, s) && t.Br? && Below(LSeq(l), k) && Above(RSeq(r), k)
    requires t.node.key == k || (Less(k, t.node.key) && t.left == Leaf) || (Less(t.node.key, k) && t.right == Leaf)
    ensures Below(InOrder(LClose(l, t.left)), k) && Above(InOrder(RClose(r, t.right)), k)
  {
    PartsDisjoint(l, t, r, s);
    SortedAround(t.left, t.node, t.right);
    if Less(t.node.key, k) {
      forall n | n in InOrder(t.left) ensures Less(n.key, k) { LessTrans(n.key, t.node.key, k); }
    }
    if Less(k, t.node.key) {
      forall n | n in InOrder(t.right) ensures Less(k, n.key) { LessTrans(k, t.node.key, n.key); }
    }
  }
}
