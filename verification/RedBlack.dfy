/** The red-black tree of openbsd-compat/sys/tree.h on real nodes with parent pointers. */
module RedBlack {
  import opened Common
  import opened Keys
  import opened RbShape
  import opened RbColour

  class Head {
    var root: Node?
    ghost var tree: Tree

    ghost predicate Valid()
      reads this, Nodes(tree)
    {
      Rep(tree, root, null) && Ascending(KeysOf(InOrder(tree))) && RbColour.RedBlack(tree)
    }

    constructor ()
      ensures Valid() && tree == Leaf
    {
      root, tree := null, Leaf;
      new;
      assert Bal(Leaf, 0);
    }

    // The idiom that redirects the parent's (or the head's) pointer at elm to child.
    method Relink(parent: Node?, elm: Node?, child: Node?, ghost path: Path)
      requires PathRep(path, root, elm) && parent == Owner(path) && PathApart(path)
      requires path.InRight? ==> parent.left != elm
      modifies `root, PNodes(path)`left, PNodes(path)`right
      ensures PathRep(path, root, child)
    {
      if parent != null {
        if parent.left == elm {
          parent.left := child;
        } else {
          parent.right := child;
        }
      } else {
        root := child;
      }
    }

    // Setting the parent pointer of a subtree, if there is one.
    method Adopt(child: Node?, parent: Node?, ghost t: Tree, ghost was: Node?)
      requires Rep(t, child, was) && TreeApart(t)
      modifies Nodes(t)`parent
      ensures Rep(t, child, parent)
    {
      RepView(t, child, was);
      if child != null {
        child.parent := parent;
      }
    }

    // RB_ROTATE_LEFT, in three parts: the inner subtree changes parent, the parent's
    // pointer is redirected, and elm goes below tmp.
    method RotateLeft(elm: Node, ghost path: Path, ghost t: Tree, ghost s: seq<Node>) returns (tmp: Node)
      requires At(path, t, root, elm, s) && t.Br? && t.right.Br?
      modifies `root, PNodes(path), Nodes(t)
      ensures tmp == t.right.node
      ensures At(path, Br(t.right.red, Br(t.red, t.left, elm, t.right.left), tmp, t.right.right), root, tmp, s)
    {
      hide InOrder, Before, After, Distinct, PathRep, Rep, Nodes, PNodes, Open;
      ghost var a, b, d := t.left, t.right.left, t.right.right;
      assert allocated(Nodes(a)) && allocated(Nodes(b)) && allocated(Nodes(d));
      AtApart(path, t, s);
      Look(path, t, root, elm, s);
      LeftParts(path, t, elm);
      tmp := HandRight(elm, path, t);
      Relink(elm.parent, elm, tmp, path);
      LowerLeft(elm, tmp, t.red, t.right.red, a, b, d, path);
      RotatedInOrder(t.red, t.right.red, a, elm, b, tmp, d);
    }

    method HandRight(elm: Node, ghost path: Path, ghost t: Tree) returns (tmp: Node)
      requires Rep(t, elm, Owner(path)) && PathRep(path, root, elm) && t.Br? && t.right.Br?
      requires LeftApart(path, t)
      modifies elm`right, t.right.node`parent, Nodes(t.right.left)`parent
      ensures tmp == t.right.node && PathRep(path, root, elm)
      ensures Open(elm, tmp, t.red, t.right.red, t.left, t.right.left, t.right.right, Owner(path))
    {
      hide PathRep, Rep, Nodes, PNodes, TreeApart;
      ghost var a, b, d := t.left, t.right.left, t.right.right;
      RepView(t, elm, Owner(path));
      RepView(t.right, elm.right, elm);
      tmp := elm.right;
      assert allocated(Nodes(a)) && allocated(Nodes(d)) && allocated(PNodes(path));
      elm.right := tmp.left;
      Adopt(elm.right, elm, b, tmp);
      tmp.parent := elm.parent;
    }

    method LowerLeft(elm: Node, tmp: Node, ghost c: bool, ghost e: bool, ghost a: Tree, ghost b: Tree, ghost d: Tree,
                     ghost path: Path)
      requires Open(elm, tmp, c, e, a, b, d, Owner(path)) && PathRep(path, root, tmp)
      requires elm !in PNodes(path) && tmp !in PNodes(path)
      modifies tmp`left, elm`parent
      ensures Rep(Br(e, Br(c, a, elm, b), tmp, d), tmp, Owner(path)) && PathRep(path, root, tmp)
    {
      tmp.left := elm;
      elm.parent := tmp;
      assert Rep(a, elm.left, elm) && Rep(b, elm.right, elm) && Rep(d, tmp.right, tmp);
      assert Rep(Br(c, a, elm, b), elm, tmp);
    }

    // RB_ROTATE_RIGHT, in the same three parts.
    method RotateRight(elm: Node, ghost path: Path, ghost t: Tree, ghost s: seq<Node>) returns (tmp: Node)
      requires At(path, t, root, elm, s) && t.Br? && t.left.Br?
      modifies `root, PNodes(path), Nodes(t)
      ensures tmp == t.left.node
      ensures At(path, Br(t.left.red, t.left.left, tmp, Br(t.red, t.left.right, elm, t.right)), root, tmp, s)
    {
      hide InOrder, Before, After, Distinct, PathRep, Rep, Nodes, PNodes, OpenRight;
      ghost var a, b, d := t.left.left, t.left.right, t.right;
      assert allocated(Nodes(a)) && allocated(Nodes(b)) && allocated(Nodes(d));
      AtApart(path, t, s);
      Look(path, t, root, elm, s);
      RightParts(path, t, elm);
      tmp := HandLeft(elm, path, t);
      Relink(elm.parent, elm, tmp, path);
      LowerRight(elm, tmp, t.red, t.left.red, a, b, d, path);
      RotatedInOrder(t.left.red, t.red, a, tmp, b, elm, d);
    }

    method HandLeft(elm: Node, ghost path: Path, ghost t: Tree) returns (tmp: Node)
      requires Rep(t, elm, Owner(path)) && PathRep(path, root, elm) && t.Br? && t.left.Br?
      requires RightApart(path, t)
      modifies elm`left, t.left.node`parent, Nodes(t.left.right)`parent
      ensures tmp == t.left.node && PathRep(path, root, elm)
      ensures OpenRight(elm, tmp, t.red, t.left.red, t.left.left, t.left.right, t.right, Owner(path))
    {
      hide PathRep, Rep, Nodes, PNodes, TreeApart;
      ghost var a, b, d := t.left.left, t.left.right, t.right;
      RepView(t, elm, Owner(path));
      RepView(t.left, elm.left, elm);
      tmp := elm.left;
      assert allocated(Nodes(a)) && allocated(Nodes(d)) && allocated(PNodes(path));
      elm.left := tmp.right;
      Adopt(elm.left, elm, b, tmp);
      tmp.parent := elm.parent;
    }

    method LowerRight(elm: Node, tmp: Node, ghost c: bool, ghost e: bool, ghost a: Tree, ghost b: Tree, ghost d: Tree,
                      ghost path: Path)
      requires OpenRight(elm, tmp, c, e, a, b, d, Owner(path)) && PathRep(path, root, tmp)
      requires elm !in PNodes(path) && tmp !in PNodes(path)
      modifies tmp`right, elm`parent
      ensures Rep(Br(e, a, tmp, Br(c, b, elm, d)), tmp, Owner(path)) && PathRep(path, root, tmp)
    {
      tmp.right := elm;
      elm.parent := tmp;
      assert Rep(a, tmp.left, tmp) && Rep(b, elm.left, elm) && Rep(d, elm.right, elm);
      assert Rep(Br(c, b, elm, d), elm, tmp);
    }

    // Changing the colour of the node at the focus.
    method Paint(n: Node, red: bool, ghost path: Path, ghost t: Tree, ghost s: seq<Node>)
      requires At(path, t, root, n, s) && t.Br?
      modifies n`red
      ensures At(path, t.(red := red), root, n, s)
    {
      hide Before, After, Distinct, PathRep;
      AtApart(path, t, s);
      n.red := red;
      assert Rep(t.left, n.left, n) && Rep(t.right, n.right, n);
    }

    // The red-uncle case: the children of the node at the focus turn black, it turns red.
    method PushBlack(first: Node, second: Node, g: Node, ghost q: Path, ghost t: Tree, ghost s: seq<Node>)
      requires At(q, t, root, g, s) && t.Br? && t.left.Br? && t.right.Br?
      requires (first == t.left.node && second == t.right.node) || (first == t.right.node && second == t.left.node)
      modifies Nodes(t)`red
      ensures At(q, Br(true, t.left.(red := false), g, t.right.(red := false)), root, g, s)
    {
      hide At, Nodes;
      Look(q, t, root, g, s);
      Family(q, t, root, g, s);
      ghost var u := PaintChild(first, false, first == t.left.node, q, t, g, s);
      u := PaintChild(second, false, first != t.left.node, q, u, g, s);
      Paint(g, true, q, u, s);
    }

    // Changing the colour of a child of the node at the focus.
    method PaintChild(n: Node, red: bool, ghost inLeft: bool, ghost q: Path, ghost t: Tree, ghost g: Node, ghost s: seq<Node>)
      returns (ghost u: Tree)
      requires At(q, t, root, g, s) && t.Br?
      requires if inLeft then t.left.Br? && n == t.left.node else t.right.Br? && n == t.right.node
      modifies n`red
      ensures u == if inLeft then t.(left := t.left.(red := red)) else t.(right := t.right.(red := red))
      ensures At(q, u, root, g, s)
    {
      hide At;
      Look(q, t, root, g, s);
      ghost var p := if inLeft then InLeft(q, t.red, t.node, t.right) else InRight(q, t.red, t.node, t.left);
      ghost var c := if inLeft then t.left else t.right;
      if inLeft { DownLeft(q, t, root, g, s); } else { DownRight(q, t, root, g, s); }
      Paint(n, red, p, c, s);
      Up(p, c.(red := red), root, n, s);
      u := if inLeft then t.(left := t.left.(red := red)) else t.(right := t.right.(red := red));
    }

    // One round of name##_RB_INSERT_COLOR whose red parent is a left child.
    method FixLeft(elm0: Node, gparent: Node, ghost path: Path, ghost t: Tree, ghost s: seq<Node>, ghost h: nat,
                   ghost ns: set<Node>)
      returns (elm: Node, ghost path': Path, ghost t': Tree, ghost h': nat)
      requires At(path, t, root, elm0, s) && Inserting(path, t, h) && OwnerRed(path)
      requires path.up.InLeft? && gparent == path.up.node && forall n :: n in s ==> n in ns
      modifies `root, ns
      ensures At(path', t', root, elm, s) && Inserting(path', t', h') && Depth(path') < Depth(path)
    {
      hide At, Surround, Bal, NoRedRed, PNodes, Nodes;
      elm := elm0;
      Look(path, t, root, elm, s);
      var parent := elm.parent;
      Grandparent(path, t, h);
      RedKids(t, h);
      ghost var q, b, uncle, tp := path.up.up, path.sib, path.up.sib, Refill(path, t);
      Up(path, t, root, elm, s);
      Up(path.up, tp, root, parent, s);
      ghost var tg := Refill(path.up, tp);
      Look(q, tg, root, gparent, s);
      FocusWithin(q, tg, root, gparent, s, ns);
      var tmp := gparent.right;
      if tmp != null && tmp.red {
        PushBlack(tmp, parent, gparent, q, tg, s);
        path', t', h' := q, Br(true, tp.(red := false), gparent, uncle.(red := false)), h + 1;
        RedKids(uncle, h);
        MakeRed(tp.left, parent, tp.right, h);
        PushedBlack(q, tp, gparent, uncle, h);
        elm := gparent;
        return;
      }
      ghost var a := t;
      if parent.right == elm {
        FocusWithin(path.up, tp, root, parent, s, ns);
        tmp := RotateLeft(parent, path.up, tp, s);
        tmp := parent;
        parent := elm;
        elm := tmp;
        MakeRed(b, elm, t.left, h);
        a, b := Br(true, b, elm, t.left), t.right;
        tp := Br(true, a, parent, b);
      }
      RotatedLeftLeft(q, a, parent, b, gparent, uncle, h);
      path', t', h' := InLeft(q, false, parent, Br(true, b, gparent, uncle)), a, h;
      LiftLeft(parent, gparent, path.up, tp, s, ns);
      Look(path', a, root, parent.left, s);
    }

    // RB_SET_BLACKRED and the rotation at the grandparent that follows it.
    method LiftLeft(parent: Node, gparent: Node, ghost p: Path, ghost tp: Tree, ghost s: seq<Node>, ghost ns: set<Node>)
      requires At(p, tp, root, parent, s) && tp.Br? && p.InLeft? && gparent == p.node && forall n :: n in s ==> n in ns
      modifies `root, ns
      ensures At(InLeft(p.up, false, parent, Br(true, tp.right, gparent, p.sib)), tp.left, root, parent.left, s)
    {
      hide At, PNodes, Nodes;
      FocusWithin(p, tp, root, parent, s, ns);
      Look(p, tp, root, parent, s);
      Paint(parent, false, p, tp, s);
      ghost var u := tp.(red := false);
      Up(p, u, root, parent, s);
      ghost var v := Refill(p, u);
      FocusWithin(p.up, v, root, gparent, s, ns);
      Paint(gparent, true, p.up, v, s);
      ghost var w := v.(red := true);
      FocusWithin(p.up, w, root, gparent, s, ns);
      var tmp := RotateRight(gparent, p.up, w, s);
      DownLeft(p.up, Br(false, tp.left, parent, Br(true, tp.right, gparent, p.sib)), root, parent, s);
    }

    // One round of name##_RB_INSERT_COLOR whose red parent is a right child.
    method FixRight(elm0: Node, gparent: Node, ghost path: Path, ghost t: Tree, ghost s: seq<Node>, ghost h: nat,
                    ghost ns: set<Node>)
      returns (elm: Node, ghost path': Path, ghost t': Tree, ghost h': nat)
      requires At(path, t, root, elm0, s) && Inserting(path, t, h) && OwnerRed(path)
      requires path.up.InRight? && gparent == path.up.node && forall n :: n in s ==> n in ns
      modifies `root, ns
      ensures At(path', t', root, elm, s) && Inserting(path', t', h') && Depth(path') < Depth(path)
    {
      hide At, Surround, Bal, NoRedRed, PNodes, Nodes;
      elm := elm0;
      Look(path, t, root, elm, s);
      var parent := elm.parent;
      Grandparent(path, t, h);
      RedKids(t, h);
      ghost var q, b, uncle, tp := path.up.up, path.sib, path.up.sib, Refill(path, t);
      Up(path, t, root, elm, s);
      Up(path.up, tp, root, parent, s);
      ghost var tg := Refill(path.up, tp);
      Look(q, tg, root, gparent, s);
      FocusWithin(q, tg, root, gparent, s, ns);
      var tmp := gparent.left;
      if tmp != null && tmp.red {
        PushBlack(tmp, parent, gparent, q, tg, s);
        path', t', h' := q, Br(true, uncle.(red := false), gparent, tp.(red := false)), h + 1;
        RedKids(uncle, h);
        MakeRed(tp.left, parent, tp.right, h);
        PushedBlack(q, uncle, gparent, tp, h);
        elm := gparent;
        return;
      }
      ghost var a := t;
      if parent.left == elm {
        FocusWithin(path.up, tp, root, parent, s, ns);
        tmp := RotateRight(parent, path.up, tp, s);
        tmp := parent;
        parent := elm;
        elm := tmp;
        MakeRed(t.right, elm, b, h);
        a, b := Br(true, t.right, elm, b), t.left;
        tp := Br(true, b, parent, a);
      }
      RotatedRightRight(q, a, parent, b, gparent, uncle, h);
      path', t', h' := InRight(q, false, parent, Br(true, uncle, gparent, b)), a, h;
      LiftRight(parent, gparent, path.up, tp, s, ns);
      Look(path', a, root, parent.right, s);
    }

    method LiftRight(parent: Node, gparent: Node, ghost p: Path, ghost tp: Tree, ghost s: seq<Node>, ghost ns: set<Node>)
      requires At(p, tp, root, parent, s) && tp.Br? && p.InRight? && gparent == p.node && forall n :: n in s ==> n in ns
      modifies `root, ns
      ensures At(InRight(p.up, false, parent, Br(true, p.sib, gparent, tp.left)), tp.right, root, parent.right, s)
    {
      hide At, PNodes, Nodes;
      FocusWithin(p, tp, root, parent, s, ns);
      Look(p, tp, root, parent, s);
      Paint(parent, false, p, tp, s);
      ghost var u := tp.(red := false);
      Up(p, u, root, parent, s);
      ghost var v := Refill(p, u);
      FocusWithin(p.up, v, root, gparent, s, ns);
      Paint(gparent, true, p.up, v, s);
      ghost var w := v.(red := true);
      FocusWithin(p.up, w, root, gparent, s, ns);
      var tmp := RotateLeft(gparent, p.up, w, s);
      DownRight(p.up, Br(false, Br(true, p.sib, gparent, tp.left), parent, tp.right), root, parent, s);
    }

    // name##_RB_INSERT_COLOR: any red-red clash at a freshly linked node is repaired.
    method InsertColor(elm0: Node, ghost path0: Path, ghost t0: Tree, ghost s: seq<Node>, ghost h0: nat, ghost ns: set<Node>)
      requires At(path0, t0, root, elm0, s) && Inserting(path0, t0, h0) && forall n :: n in s ==> n in ns
      modifies this, ns
      ensures Rep(tree, root, null) && InOrder(tree) == s && RbColour.RedBlack(tree)
    {
      hide At, Surround, Bal, NoRedRed, PNodes, Nodes, Inserting, RbColour.RedBlack;
      var elm := elm0;
      ghost var path, t, h := path0, t0, h0;
      Look(path, t, root, elm, s);
      while elm.parent != null && elm.parent.red
        invariant At(path, t, root, elm, s) && Inserting(path, t, h)
        decreases Depth(path)
      {
        Look(path, t, root, elm, s);
        InsertingGrandparent(path, t, h);
        var gparent := elm.parent.parent;
        Up(path, t, root, elm, s);
        Look(path.up, Refill(path, t), root, elm.parent, s);
        if elm.parent == gparent.left {
          elm, path, t, h := FixLeft(elm, gparent, path, t, s, h, ns);
        } else {
          elm, path, t, h := FixRight(elm, gparent, path, t, s, h, ns);
        }
      }
      Look(path, t, root, elm, s);
      InsertingGrandparent(path, t, h);
      Inserted(path, t, h);
      AtTop(path, t, root, elm, s);
      assert allocated(Nodes(Plug(path, t)));
      tree := Plug(path, t);
      assert Rep(tree, root, null);
      Blacken(s, ns);
    }

    // RB_COLOR(head->rbh_root) = RB_BLACK
    method Blacken(ghost s: seq<Node>, ghost ns: set<Node>)
      requires Rep(tree, root, null) && InOrder(tree) == s && Distinct(s) && root != null
      requires forall n :: n in s ==> n in ns
      modifies `tree, ns
      ensures Rep(tree, root, null) && InOrder(tree) == s && tree == BlackRoot(old(tree))
    {
      hide At, PNodes, Nodes, InOrder, Distinct, Rep;
      AtRoot(tree, root);
      FocusWithin(Top, tree, root, root, s, ns);
      Look(Top, tree, root, root, s);
      ghost var t := tree;
      tree := t.(red := false);
      Paint(root, false, Top, t, s);
      AtTop(Top, tree, root, root, s);
    }

    // name##_RB_INSERT: elm goes between the nodes below and above its key, unless some
    // node has that key already.
    method Insert(elm: Node) returns (dup: Node?, ghost below: seq<Node>, ghost above: seq<Node>)
      requires Valid() && elm !in Nodes(tree)
      modifies this, Nodes(tree), elm
      ensures Valid()
      ensures dup != null ==> dup.key == elm.key && dup in InOrder(tree) && InOrder(tree) == old(InOrder(tree))
      ensures dup == null ==> old(InOrder(tree)) == below + above && InOrder(tree) == below + [elm] + above
      ensures dup == null ==> AllBelow(KeysOf(below), elm.key) && AllAbove(KeysOf(above), elm.key)
    {
      hide At, PNodes, Nodes, InOrder, Distinct, Rep, Good, RbColour.RedBlack, Less, Ascending, AllBelow, AllAbove, Before, After;
      ghost var s, ns := InOrder(tree), Nodes(tree);
      NodesInOrder(tree);
      assert allocated(ns);
      var tmp, parent, comp, path, h := Descend(elm.key);
      below, above := Before(path), After(path);
      if tmp != null { return tmp, below, above; }
      AtSequence(path, Leaf, root, null, s);
      assert allocated(ns);
      Link(elm, parent, comp, path, s, ns);
      LeafHole(path, h, elm, s);
      InsertColor(elm, path, Br(true, Leaf, elm, Leaf), below + [elm] + above, 0, ns + {elm});
      dup := null;
    }

    // The search loop of name##_RB_INSERT: it ends at a node with the key, or at the
    // hole where a node with that key belongs.
    method Descend(k: Text) returns (tmp: Node?, parent: Node?, comp: int, ghost path: Path, ghost h: nat)
      requires Valid()
      ensures tmp != null ==> tmp in InOrder(tree) && tmp.key == k
      ensures tmp == null ==> At(path, Leaf, root, null, InOrder(tree)) && Good(path, Leaf, h)
      ensures tmp == null ==> parent == Owner(path) && (path.InLeft? ==> comp < 0) && (path.InRight? ==> comp > 0)
      ensures tmp == null ==> AllBelow(KeysOf(Before(path)), k) && AllAbove(KeysOf(After(path)), k)
    {
      hide At, PNodes, Nodes, InOrder, Distinct, Rep, Good, RbColour.RedBlack, StrCmp, Less, Ascending, AllBelow, AllAbove, Before, After;
      tmp, parent, comp := root, null, 0;
      ghost var s, t := InOrder(tree), tree;
      path := Top;
      AscendingDistinct(s);
      AtRoot(tree, root);
      GoodTop(tree);
      h :| Good(Top, tree, h);
      NothingAround(k);
      while tmp != null
        invariant At(path, t, root, tmp, s) && Good(path, t, h)
        invariant parent == Owner(path) && (path.InLeft? ==> comp < 0) && (path.InRight? ==> comp > 0)
        invariant AllBelow(KeysOf(Before(path)), k) && AllAbove(KeysOf(After(path)), k)
        decreases t
      {
        Look(path, t, root, tmp, s);
        AtSequence(path, t, root, tmp, s);
        parent := tmp;
        comp := StrCmp(k, parent.key);
        CmpTotal(k, parent.key);
        OrderAround(path, t, s);
        if comp < 0 {
          GoLeft(path, t, k);
          DownLeft(path, t, root, tmp, s);
          GoodDownLeft(path, t, h);
          path, t, h := InLeft(path, t.red, t.node, t.right), t.left, if t.red then h else h - 1;
          tmp := tmp.left;
        } else if comp > 0 {
          GoRight(path, t, k);
          DownRight(path, t, root, tmp, s);
          GoodDownRight(path, t, h);
          path, t, h := InRight(path, t.red, t.node, t.left), t.right, if t.red then h else h - 1;
          tmp := tmp.right;
        } else {
          FocusIn(path, t, s);
          return;
        }
      }
      Look(path, t, root, tmp, s);
    }

    // RB_SET and the parent's new child pointer.
    method Link(elm: Node, parent: Node?, comp: int, ghost path: Path, ghost s: seq<Node>, ghost ns: set<Node>)
      requires At(path, Leaf, root, null, s) && elm !in s && parent == Owner(path)
      requires (path.InLeft? ==> comp < 0) && (path.InRight? ==> comp > 0)
      requires forall n :: n in s ==> n in ns
      modifies `root, elm, ns
      ensures At(path, Br(true, Leaf, elm, Leaf), root, elm, Before(path) + [elm] + After(path))
    {
      hide Before, After, Distinct, PathRep, PNodes;
      AtApart(path, Leaf, s);
      assert allocated(PNodes(path));
      FreshNode(path, elm, s);
      Within(path, Leaf, s, ns);
      elm.parent := parent;
      elm.left, elm.right := null, null;
      elm.red := true;
      Hang(elm, parent, comp, path);
      ghost var u := Br(true, Leaf, elm, Leaf);
      assert Rep(u, elm, parent);
      assert InOrder(u) == [elm];
    }

    method Hang(elm: Node, parent: Node?, comp: int, ghost path: Path)
      requires PathRep(path, root, null) && PathApart(path) && parent == Owner(path)
      requires (path.InLeft? ==> comp < 0) && (path.InRight? ==> comp > 0)
      modifies `root, PNodes(path)`left, PNodes(path)`right
      ensures PathRep(path, root, elm)
    {
      if parent != null {
        if comp < 0 {
          parent.left := elm;
        } else {
          parent.right := elm;
        }
      } else {
        root := elm;
      }
    }

    // name##_RB_REMOVE_COLOR for a focus that is a left child. A red sibling is rotated up.
    method RaiseRight(parent: Node, ghost path: Path, ghost t: Tree, ghost s: seq<Node>, ghost h: nat, ghost ns: set<Node>)
      returns (tmp: Node, ghost path': Path)
      requires At(path, t, root, parent.left, s) && Removing(path, t, h) && path.InLeft? && parent == path.node
      requires forall n :: n in s ==> n in ns
      modifies `root, ns
      ensures At(path', t, root, parent.left, s) && Removing(path', t, h) && path'.InLeft? && path'.node == parent
      ensures path'.sib.Br? && !path'.sib.red && tmp == path'.sib.node
      ensures path' == path || path'.red
    {
      hide At, Surround, Bal, NoRedRed, PNodes, Nodes, Removing;
      Sibling(path, t, h);
      ghost var q, w, tp := path.up, path.sib, Refill(path, t);
      Up(path, t, root, parent.left, s);
      Look(q, tp, root, parent, s);
      FocusWithin(q, tp, root, parent, s, ns);
      tmp := parent.right;
      path' := path;
      if tmp.red {
        RedSiblingLeft(path, t, h);
        Family(q, tp, root, parent, s);
        ghost var u := PaintChild(tmp, false, false, q, tp, parent, s);
        Paint(parent, true, q, u, s);
        u := u.(red := true);
        FocusWithin(q, u, root, parent, s, ns);
        tmp := RotateLeft(parent, q, u, s);
        ghost var v := Br(true, t, parent, w.left);
        DownLeft(q, Br(false, v, tmp, w.right), root, tmp, s);
        ghost var q' := InLeft(q, false, tmp, w.right);
        Look(q, Br(false, v, tmp, w.right), root, tmp, s);
        DownLeft(q', v, root, parent, s);
        Look(q', v, root, parent, s);
        tmp := parent.right;
        path' := InLeft(q', true, parent, w.left);
        Sibling(path', t, h);
      }
    }

    // One round with a black sibling: either the shortage moves up to the parent, or
    // rotations end it.
    method SettleRight(parent: Node, tmp0: Node, ghost path: Path, ghost t: Tree, ghost s: seq<Node>, ghost h: nat, ghost ns: set<Node>)
      returns (done: bool, ghost path': Path, ghost t': Tree, ghost h': nat)
      requires At(path, t, root, parent.left, s) && Removing(path, t, h) && !IsRed(t)
      requires path.InLeft? && parent == path.node && path.sib.Br? && !path.sib.red && tmp0 == path.sib.node
      requires forall n :: n in s ==> n in ns
      modifies `root, ns
      ensures path' == path.up
      ensures !done ==> At(path', t', root, parent, s) && Removing(path', t', h') && t'.Br? && t'.red == path.red
      ensures done ==> exists p :: At(path', t', root, p, s) && Good(path', t', h')
    {
      hide At, Surround, Bal, NoRedRed, PNodes, Nodes, Removing, Good;
      var tmp := tmp0;
      ghost var q, w, tp := path.up, path.sib, Refill(path, t);
      path' := q;
      Up(path, t, root, parent.left, s);
      ghost var qw := InRight(q, tp.red, parent, t);
      DownRight(q, tp, root, parent, s);
      Look(q, tp, root, parent, s);
      Look(qw, w, root, tmp, s);
      FocusWithin(q, tp, root, parent, s, ns);
      FocusWithin(qw, w, root, tmp, s, ns);
      Family(qw, w, root, tmp, s);
      if (tmp.left == null || !tmp.left.red) && (tmp.right == null || !tmp.right.red) {
        PassUp(path, t, h);
        ghost var u := PaintChild(tmp, true, false, q, tp, parent, s);
        done, t', h' := false, u, if path.red then h else h + 1;
        return;
      }
      if tmp.right == null || !tmp.right.red {
        InnerRedLeft(path, t, h);
        var oleft := tmp.left;
        ghost var u := PaintChild(oleft, false, true, qw, w, tmp, s);
        Paint(tmp, true, qw, u, s);
        u := u.(red := true);
        FocusWithin(qw, u, root, tmp, s, ns);
        oleft := RotateRight(tmp, qw, u, s);
        w := TurnedRight(w);
        Up(qw, w, root, oleft, s);
        tp := Refill(qw, w);
        Look(q, tp, root, parent, s);
        tmp := parent.right;
      }
      ghost var path2 := InLeft(q, path.red, parent, w);
      OuterRedLeft(path2, t, h);
      t', h' := EndLeft(parent, tmp, q, tp, s, ns, if path.red then h + 1 else h + 2);
      done := true;
    }

    // The final recolouring and rotation of name##_RB_REMOVE_COLOR.
    method EndLeft(parent: Node, tmp: Node, ghost q: Path, ghost tp: Tree, ghost s: seq<Node>, ghost ns: set<Node>, ghost h: nat)
      returns (ghost t': Tree, ghost h': nat)
      requires At(q, tp, root, parent, s) && tp.Br? && tp.right.Br? && tp.right.right.Br? && tmp == tp.right.node
      requires forall n :: n in s ==> n in ns
      modifies `root, ns
      ensures t' == Br(tp.red, Br(false, tp.left, parent, tp.right.left), tmp, tp.right.right.(red := false)) && h' == h
      ensures At(q, t', root, tmp, s)
    {
      hide At, PNodes, Nodes;
      h' := h;
      FocusWithin(q, tp, root, parent, s, ns);
      Look(q, tp, root, parent, s);
      Family(q, tp, root, parent, s);
      ghost var u := PaintChild(tmp, parent.red, false, q, tp, parent, s);
      Paint(parent, false, q, u, s);
      u := u.(red := false);
      ghost var w, qw := u.right, InRight(q, false, parent, u.left);
      DownRight(q, u, root, parent, s);
      Look(q, u, root, parent, s);
      Look(qw, w, root, tmp, s);
      FocusWithin(qw, w, root, tmp, s, ns);
      Family(qw, w, root, tmp, s);
      if tmp.right != null {
        ghost var w2 := PaintChild(tmp.right, false, false, qw, w, tmp, s);
        Up(qw, w2, root, tmp, s);
        u := Refill(qw, w2);
      }
      FocusWithin(q, u, root, parent, s, ns);
      var x := RotateLeft(parent, q, u, s);
      t' := Br(tp.red, Br(false, tp.left, parent, tp.right.left), tmp, tp.right.right.(red := false));
    }

    // The same three steps for a focus that is a right child.
    method RaiseLeft(parent: Node, ghost path: Path, ghost t: Tree, ghost s: seq<Node>, ghost h: nat, ghost ns: set<Node>)
      returns (tmp: Node, ghost path': Path)
      requires At(path, t, root, parent.right, s) && Removing(path, t, h) && path.InRight? && parent == path.node
      requires forall n :: n in s ==> n in ns
      modifies `root, ns
      ensures At(path', t, root, parent.right, s) && Removing(path', t, h) && path'.InRight? && path'.node == parent
      ensures path'.sib.Br? && !path'.sib.red && tmp == path'.sib.node
      ensures path' == path || path'.red
    {
      hide At, Surround, Bal, NoRedRed, PNodes, Nodes, Removing;
      Sibling(path, t, h);
      ghost var q, w, tp := path.up, path.sib, Refill(path, t);
      Up(path, t, root, parent.right, s);
      Look(q, tp, root, parent, s);
      FocusWithin(q, tp, root, parent, s, ns);
      tmp := parent.left;
      path' := path;
      if tmp.red {
        RedSiblingRight(path, t, h);
        Family(q, tp, root, parent, s);
        ghost var u := PaintChild(tmp, false, true, q, tp, parent, s);
        Paint(parent, true, q, u, s);
        u := u.(red := true);
        FocusWithin(q, u, root, parent, s, ns);
        tmp := RotateRight(parent, q, u, s);
        ghost var v := Br(true, w.right, parent, t);
        DownRight(q, Br(false, w.left, tmp, v), root, tmp, s);
        ghost var q' := InRight(q, false, tmp, w.left);
        Look(q, Br(false, w.left, tmp, v), root, tmp, s);
        DownRight(q', v, root, parent, s);
        Look(q', v, root, parent, s);
        tmp := parent.left;
        path' := InRight(q', true, parent, w.right);
        Sibling(path', t, h);
      }
    }

    method SettleLeft(parent: Node, tmp0: Node, ghost path: Path, ghost t: Tree, ghost s: seq<Node>, ghost h: nat, ghost ns: set<Node>)
      returns (done: bool, ghost path': Path, ghost t': Tree, ghost h': nat)
      requires At(path, t, root, parent.right, s) && Removing(path, t, h) && !IsRed(t)
      requires path.InRight? && parent == path.node && path.sib.Br? && !path.sib.red && tmp0 == path.sib.node
      requires forall n :: n in s ==> n in ns
      modifies `root, ns
      ensures path' == path.up
      ensures !done ==> At(path', t', root, parent, s) && Removing(path', t', h') && t'.Br? && t'.red == path.red
      ensures done ==> exists p :: At(path', t', root, p, s) && Good(path', t', h')
    {
      hide At, Surround, Bal, NoRedRed, PNodes, Nodes, Removing, Good;
      var tmp := tmp0;
      ghost var q, w, tp := path.up, path.sib, Refill(path, t);
      path' := q;
      Up(path, t, root, parent.right, s);
      ghost var qw := InLeft(q, tp.red, parent, t);
      DownLeft(q, tp, root, parent, s);
      Look(q, tp, root, parent, s);
      Look(qw, w, root, tmp, s);
      FocusWithin(q, tp, root, parent, s, ns);
      FocusWithin(qw, w, root, tmp, s, ns);
      Family(qw, w, root, tmp, s);
      if (tmp.left == null || !tmp.left.red) && (tmp.right == null || !tmp.right.red) {
        PassUp(path, t, h);
        ghost var u := PaintChild(tmp, true, true, q, tp, parent, s);
        done, t', h' := false, u, if path.red then h else h + 1;
        return;
      }
      if tmp.left == null || !tmp.left.red {
        InnerRedRight(path, t, h);
        var oright := tmp.right;
        ghost var u := PaintChild(oright, false, false, qw, w, tmp, s);
        Paint(tmp, true, qw, u, s);
        u := u.(red := true);
        FocusWithin(qw, u, root, tmp, s, ns);
        oright := RotateLeft(tmp, qw, u, s);
        w := TurnedLeft(w);
        Up(qw, w, root, oright, s);
        tp := Refill(qw, w);
        Look(q, tp, root, parent, s);
        tmp := parent.left;
      }
      ghost var path2 := InRight(q, path.red, parent, w);
      OuterRedRight(path2, t, h);
      t', h' := EndRight(parent, tmp, q, tp, s, ns, if path.red then h + 1 else h + 2);
      done := true;
    }

    method EndRight(parent: Node, tmp: Node, ghost q: Path, ghost tp: Tree, ghost s: seq<Node>, ghost ns: set<Node>, ghost h: nat)
      returns (ghost t': Tree, ghost h': nat)
      requires At(q, tp, root, parent, s) && tp.Br? && tp.left.Br? && tp.left.left.Br? && tmp == tp.left.node
      requires forall n :: n in s ==> n in ns
      modifies `root, ns
      ensures t' == Br(tp.red, tp.left.left.(red := false), tmp, Br(false, tp.left.right, parent, tp.right)) && h' == h
      ensures At(q, t', root, tmp, s)
    {
      hide At, PNodes, Nodes;
      h' := h;
      FocusWithin(q, tp, root, parent, s, ns);
      Look(q, tp, root, parent, s);
      Family(q, tp, root, parent, s);
      ghost var u := PaintChild(tmp, parent.red, true, q, tp, parent, s);
      Paint(parent, false, q, u, s);
      u := u.(red := false);
      ghost var w, qw := u.left, InLeft(q, false, parent, u.right);
      DownLeft(q, u, root, parent, s);
      Look(q, u, root, parent, s);
      Look(qw, w, root, tmp, s);
      FocusWithin(qw, w, root, tmp, s, ns);
      Family(qw, w, root, tmp, s);
      if tmp.left != null {
        ghost var w2 := PaintChild(tmp.left, false, true, qw, w, tmp, s);
        Up(qw, w2, root, tmp, s);
        u := Refill(qw, w2);
      }
      FocusWithin(q, u, root, parent, s, ns);
      var x := RotateRight(parent, q, u, s);
      t' := Br(tp.red, tp.left.left.(red := false), tmp, Br(false, tp.left.right, parent, tp.right));
    }

    // name##_RB_REMOVE_COLOR: a focus one black node short is repaired.
    method RemoveColor(parent0: Node?, elm0: Node?, ghost path0: Path, ghost t0: Tree, ghost s: seq<Node>, ghost h0: nat, ghost ns: set<Node>)
      requires At(path0, t0, root, elm0, s) && Removing(path0, t0, h0) && parent0 == Owner(path0)
      requires forall n :: n in s ==> n in ns
      modifies this, ns
      ensures Rep(tree, root, null) && InOrder(tree) == s && RbColour.RedBlack(tree)
    {
      hide At, PNodes, Nodes, Removing, RbColour.RedBlack, Good, Plug;
      var parent, elm := parent0, elm0;
      ghost var path, t, h := path0, t0, h0;
      var done := false;
      while (elm == null || !elm.red) && elm != root
        invariant At(path, t, root, elm, s)
        invariant if done then elm == root && path == Top && RbColour.RedBlack(Plug(path, BlackRoot(t)))
                  else Removing(path, t, h) && parent == Owner(path)
        decreases if IsRed(t) || done then 0 else 1 + Depth(path)
      {
        Look(path, t, root, elm, s);
        NotRoot(path, t, root, elm, s);
        if parent.left == elm {
          LeftFocus(path, t, root, elm, s, h);
          var tmp;
          tmp, path := RaiseRight(parent, path, t, s, h, ns);
          done, path, t, h := SettleRight(parent, tmp, path, t, s, h, ns);
        } else {
          var tmp;
          tmp, path := RaiseLeft(parent, path, t, s, h, ns);
          done, path, t, h := SettleLeft(parent, tmp, path, t, s, h, ns);
        }
        if done {
          path, t := ToTop(path, t, root, s, h);
          elm := root;
        } else {
          Look(path, t, root, parent, s);
          elm := parent;
          parent := elm.parent;
        }
      }
      Look(path, t, root, elm, s);
      NotRoot(path, t, root, elm, s);
      if !done { Removed(path, t, h); }
      if elm != null {
        FocusWithin(path, t, root, elm, s, ns);
        Paint(elm, false, path, t, s);
      }
      ghost var u := BlackRoot(t);
      AtTop(path, u, root, elm, s);
      assert allocated(Nodes(Plug(path, u)));
      tree := Plug(path, u);
      assert Rep(tree, root, null);
    }

    // A node with at most one child is bypassed.
    method Splice(elm: Node, child: Node?, parent: Node?, ghost path: Path, ghost t: Tree, ghost s: seq<Node>, ghost ns: set<Node>)
      requires At(path, t, root, elm, s) && t.Br? && (t.left.Leaf? || t.right.Leaf?) && parent == Owner(path)
      requires child == if t.left.Leaf? then elm.right else elm.left
      requires forall n :: n in s ==> n in ns
      modifies `root, ns - {elm}
      ensures At(path, Rest(t), root, child, Before(path) + InOrder(Rest(t)) + After(path))
    {
      hide Before, After, Distinct, InOrder, PathRep, PNodes;
      AtApart(path, t, s);
      Look(path, t, root, elm, s);
      FocusWithin(path, t, root, elm, s, ns);
      RepView(t, elm, Owner(path));
      DistinctRest(path, t, s);
      assert allocated(PNodes(path));
      Adopt(child, parent, Rest(t), elm);
      assert allocated(Nodes(Rest(t)));
      Relink(parent, elm, child, path);
    }

    // The leftmost node of the right subtree.
    method Successor(old_: Node, ghost path: Path, ghost t: Tree, ghost s: seq<Node>, ghost h: nat)
      returns (elm: Node, ghost sp: Spine, ghost tm: Tree, ghost hm: nat)
      requires At(path, t, root, old_, s) && Good(path, t, h) && t.Br? && t.right.Br?
      ensures var q := Onto(sp, InRight(path, t.red, old_, t.left)); At(q, tm, root, elm, s) && Good(q, tm, hm)
      ensures tm.Br? && tm.left.Leaf? && t.right == Close(sp, tm)
    {
      hide At, PNodes, Nodes, Good, Removing, Before, After, InOrder, Distinct, Rep;
      Look(path, t, root, old_, s);
      DownRight(path, t, root, old_, s);
      GoodDownRight(path, t, h);
      elm := old_.right;
      ghost var base := InRight(path, t.red, old_, t.left);
      sp, tm, hm := SNil, t.right, if t.red then h else h - 1;
      var left := elm.left;
      while left != null
        invariant At(Onto(sp, base), tm, root, elm, s) && Good(Onto(sp, base), tm, hm)
        invariant tm.Br? && t.right == Close(sp, tm) && left == elm.left
        decreases tm
      {
        ghost var q := Onto(sp, base);
        Look(q, tm, root, elm, s);
        DownLeft(q, tm, root, elm, s);
        GoodDownLeft(q, tm, hm);
        sp, tm, hm := SCons(sp, tm.red, elm, tm.right), tm.left, if tm.red then hm else hm - 1;
        elm := left;
        left := elm.left;
      }
      Look(Onto(sp, base), tm, root, elm, s);
    }

    // name##_RB_REMOVE for a node with two children: its successor, which has no left
    // child, is bypassed and then takes over the node's place, links and colour.
    method RemoveInner(old_: Node, ghost path: Path, ghost t: Tree, ghost s: seq<Node>, ghost h: nat, ghost ns: set<Node>)
      returns (parent: Node?, child: Node?, color: bool, ghost path': Path, ghost u: Tree, ghost h': nat)
      requires At(path, t, root, old_, s) && Good(path, t, h) && t.Br? && t.left.Br? && t.right.Br?
      requires forall n :: n in s ==> n in ns
      modifies `root, ns
      ensures At(path', u, root, child, Before(path) + InOrder(t.left) + (InOrder(t.right) + After(path)))
      ensures parent == Owner(path') && if color then Good(path', u, h') else Removing(path', u, h')
    {
      hide At, PNodes, Nodes, Good, Removing, Before, After, InOrder, Distinct, Rep;
      Look(path, t, root, old_, s);
      ghost var base := InRight(path, t.red, old_, t.left);
      var elm, sp, tm, hm := Successor(old_, path, t, s, h);
      ghost var q := Onto(sp, base);
      Look(q, tm, root, elm, s);
      child := elm.right;
      parent := elm.parent;
      color := elm.red;
      u := tm.right;
      Unlinked(q, tm, hm);
      h' := if tm.red then hm else hm - 1;
      SpineOwner(sp, base, tm, root, elm, s);
      AtSequence(q, tm, root, elm, s);
      FocusWithin(q, tm, root, elm, s, ns);
      Splice(elm, child, parent, q, tm, s, ns);
      ghost var s1 := Before(q) + InOrder(u) + After(q);
      Bypassed(q, tm, s);
      Look(q, u, root, child, s1);
      if elm.parent == old_ {
        parent := elm;
      }
      ReplaceBy(old_, elm, child, path, t, sp, tm, s1, ns);
      path' := Onto(sp, InRight(path, t.red, elm, t.left));
      Recoloured(sp, path, t.red, old_, elm, t.left, u, h', color);
    }

    // The bypassed successor takes over, seen from the hole it left.
    method ReplaceBy(old_: Node, elm: Node, ghost child: Node?, ghost path: Path, ghost t: Tree, ghost sp: Spine, ghost tm: Tree,
                     ghost s1: seq<Node>, ghost ns: set<Node>)
      requires t.Br? && t.left.Br? && tm.Br? && tm.left.Leaf? && tm.node == elm && t.node == old_ && t.right == Close(sp, tm)
      requires At(Onto(sp, InRight(path, t.red, old_, t.left)), tm.right, root, child, s1)
      requires elm !in s1 && elm in ns && forall n :: n in s1 ==> n in ns
      modifies `root, ns
      ensures At(Onto(sp, InRight(path, t.red, elm, t.left)), tm.right, root, child,
                 Before(path) + InOrder(t.left) + (InOrder(t.right) + After(path)))
    {
      hide At, PNodes, Nodes, Before, After, InOrder, Distinct, Rep;
      ghost var u, base, base2 := tm.right, InRight(path, t.red, old_, t.left), InRight(path, t.red, elm, t.left);
      Look(Onto(sp, base), u, root, child, s1);
      UpSpine(sp, base, u, root, child, s1);
      Up(base, Close(sp, u), root, old_.right, s1);
      TakePlace(old_, elm, path, Br(t.red, t.left, old_, Close(sp, u)), s1, ns);
      ghost var t2 := Br(t.red, t.left, elm, Close(sp, u));
      ghost var s2 := Before(path) + InOrder(t2) + After(path);
      TakenInOrder(path, t, sp, tm);
      DownRight(path, t2, root, elm, s2);
      DownSpine(sp, base2, u, root, s2);
      Look(Onto(sp, base2), u, root, HolePtr(Onto(sp, base2), root), s2);
    }

    // elm->field = old->field, and the pointers at old redirected to elm.
    method TakePlace(old_: Node, elm: Node, ghost path: Path, ghost t: Tree, ghost s: seq<Node>, ghost ns: set<Node>)
      requires At(path, t, root, old_, s) && t.Br? && t.left.Br? && elm !in s && elm in ns
      requires forall n :: n in s ==> n in ns
      modifies `root, ns
      ensures At(path, t.(node := elm), root, elm, Before(path) + InOrder(t.(node := elm)) + After(path))
    {
      hide Before, After, Distinct, InOrder, PathRep, PNodes, Nodes, Rep, TreeApart;
      AtApart(path, t, s);
      Look(path, t, root, old_, s);
      FocusWithin(path, t, root, old_, s, ns);
      RepView(t, old_, Owner(path));
      Outside(path, t, s, elm);
      PlaceParts(t, path, elm);
      assert allocated(PNodes(path)) && allocated(Nodes(t.left)) && allocated(Nodes(t.right));
      elm.left, elm.right, elm.parent, elm.red := old_.left, old_.right, old_.parent, old_.red;
      Relink(old_.parent, old_, elm, path);
      Adopt(old_.left, elm, t.left, old_);
      Adopt(old_.right, elm, t.right, old_);
      RepMake(t.red, t.left, elm, t.right, Owner(path));
    }

    // name##_RB_REMOVE: elm, which is in the tree, is taken out of the order.
    method Remove(elm: Node) returns (ghost below: seq<Node>, ghost above: seq<Node>)
      requires Valid() && elm in InOrder(tree)
      modifies this, Nodes(tree)
      ensures Valid() && InOrder(tree) == below + above && old(InOrder(tree)) == below + [elm] + above
    {
      hide At, PNodes, Nodes, Good, Removing, RbColour.RedBlack, Before, After, InOrder, Distinct, Rep, Ascending;
      ghost var s, ns := InOrder(tree), Nodes(tree);
      NodesInOrder(tree);
      ghost var path, t, h := Begin(tree, root, elm);
      below, above := Before(path) + InOrder(t.left), InOrder(t.right) + After(path);
      var parent, child, color;
      ghost var u;
      Look(path, t, root, elm, s);
      if elm.left == null || elm.right == null {
        child := if elm.left == null then elm.right else elm.left;
        parent := elm.parent;
        color := elm.red;
        u := Rest(t);
        Unlinked(path, t, h);
        h := if t.red then h else h - 1;
        Splice(elm, child, parent, path, t, s, ns);
      } else {
        parent, child, color, path, u, h := RemoveInner(elm, path, t, s, h, ns);
      }
      assert forall n :: n in below + above ==> n in s;
      if !color {
        RemoveColor(parent, child, path, u, below + above, h, ns);
      } else {
        Finish(path, u, child, below + above, h);
      }
    }

    // A removed red node needs no repair.
    ghost method Finish(path: Path, u: Tree, child: Node?, s: seq<Node>, h: nat)
      requires At(path, u, root, child, s) && Good(path, u, h)
      modifies `tree
      ensures Rep(tree, root, null) && InOrder(tree) == s && RbColour.RedBlack(tree)
    {
      GoodPlug(path, u, h);
      AtTop(path, u, root, child, s);
      assert allocated(Nodes(Plug(path, u)));
      tree := Plug(path, u);
      assert Rep(tree, root, null);
    }

    // name##_RB_NFIND: the first node, in order, whose key is not below k. It looks at no more
    // than 2 lg(n + 1) of n nodes.
    method NFind(k: Text) returns (res: Node?, ghost below: seq<Node>, ghost above: seq<Node>, ghost looks: nat)
      requires Valid()
      ensures InOrder(tree) == below + above
      ensures AllBelow(KeysOf(below), k) && (forall n :: n in above ==> !Less(n.key, k))
      ensures res == if above == [] then null else above[0]
      ensures Pow2(looks) <= (|InOrder(tree)| + 1) * (|InOrder(tree)| + 1)
    {
      hide At, PNodes, Nodes, InOrder, Distinct, Rep, RbColour.RedBlack, StrCmp, Less, Ascending, AllBelow, AllAbove, Before, After, Height, Pow2;
      var tmp := root;
      res, looks := null, 0;
      ghost var s, t, path := InOrder(tree), tree, Top;
      AscendingDistinct(s);
      AtRoot(tree, root);
      NothingAround(k);
      NothingAfter();
      while tmp != null
        invariant At(path, t, root, tmp, s)
        invariant AllBelow(KeysOf(Before(path)), k) && AllAbove(KeysOf(After(path)), k)
        invariant res == if After(path) == [] then null else After(path)[0]
        invariant looks + Height(t) <= Height(tree)
        decreases t
      {
        Look(path, t, root, tmp, s);
        AtSequence(path, t, root, tmp, s);
        looks := looks + 1;
        HeightDown(t);
        var comp := StrCmp(k, tmp.key);
        CmpTotal(k, tmp.key);
        OrderAround(path, t, s);
        FirstAfter(path, t);
        if comp < 0 {
          res := tmp;
          GoLeft(path, t, k);
          DownLeft(path, t, root, tmp, s);
          path, t := InLeft(path, t.red, t.node, t.right), t.left;
          tmp := tmp.left;
        } else if comp > 0 {
          GoRight(path, t, k);
          DownRight(path, t, root, tmp, s);
          path, t := InRight(path, t.red, t.node, t.left), t.right;
          tmp := tmp.right;
        } else {
          below, above := Before(path) + InOrder(t.left), [t.node] + (InOrder(t.right) + After(path));
          SplitAtKey(path, t, s);
          DepthBound(tree, looks);
          return tmp, below, above, looks;
        }
      }
      Look(path, t, root, tmp, s);
      AtSequence(path, t, root, tmp, s);
      below, above := Before(path), After(path);
      SplitAtHole(path, s, k);
      DepthBound(tree, looks);
    }

    // name##_RB_NEXT: the in-order successor, found below to the right or by climbing.
    method Next(elm: Node) returns (n: Node?, ghost below: seq<Node>, ghost above: seq<Node>)
      requires Valid() && elm in InOrder(tree)
      ensures InOrder(tree) == below + [elm] + above
      ensures n == if above == [] then null else above[0]
    {
      hide At, PNodes, Nodes, Good, RbColour.RedBlack, Before, After, InOrder, Distinct, Rep, Ascending;
      ghost var s := InOrder(tree);
      ghost var path, t, h := Begin(tree, root, elm);
      below, above := Before(path) + InOrder(t.left), InOrder(t.right) + After(path);
      Look(path, t, root, elm, s);
      if elm.right != null {
        var m, sp, tm, hm := Successor(elm, path, t, s, h);
        Look(Onto(sp, InRight(path, t.red, elm, t.left)), tm, root, m, s);
        SpineFirst(sp, tm.red, tm.node, tm.right);
        assert tm == Br(tm.red, Leaf, tm.node, tm.right);
        n := m;
      } else {
        EmptyRight(path, t);
        if elm.parent != null && elm == elm.parent.left {
          FirstOf(path);
          n := elm.parent;
        } else {
          var e: Node := elm;
          ghost var p, u := path, t;
          while e.parent != null && e == e.parent.right
            invariant At(p, u, root, e, s) && u.Br? && After(p) == above
            decreases p
          {
            Look(p, u, root, e, s);
            FirstOf(p);
            Up(p, u, root, e, s);
            p, u := p.up, Refill(p, u);
            e := e.parent;
          }
          Look(p, u, root, e, s);
          FirstOf(p);
          n := e.parent;
        }
      }
    }
  }

  lemma {:induction false} NothingAfter()
    ensures After(Top) == []
  {
  }

  lemma {:induction false} FirstAfter(path: Path, t: Tree)
    requires t.Br?
    ensures After(InLeft(path, t.red, t.node, t.right)) != [] && After(InLeft(path, t.red, t.node, t.right))[0] == t.node
  {
  }

  lemma {:induction false} FirstOf(p: Path)
    ensures p.Top? ==> After(p) == []
    ensures p.InLeft? ==> After(p) != [] && After(p)[0] == p.node
    ensures p.InRight? ==> After(p) == After(p.up)
  {
  }

  lemma {:induction false} EmptyRight(path: Path, t: Tree)
    requires t.Br? && t.right.Leaf?
    ensures InOrder(t.right) + After(path) == After(path)
  {
  }

  lemma {:induction false} NoneBelow(above: seq<Node>, k: Text)
    requires AllAbove(KeysOf(above), k)
    ensures forall n :: n in above ==> !Less(n.key, k)
  {
    forall n | n in above ensures !Less(n.key, k) {
      var i :| 0 <= i < |above| && above[i] == n;
      assert Less(k, KeysOf(above)[i]);
      CmpTotal(k, n.key);
    }
  }

  lemma {:induction false} SplitAtHole(path: Path, s: seq<Node>, k: Text)
    requires s == Before(path) + InOrder(Leaf) + After(path) && AllAbove(KeysOf(After(path)), k)
    ensures s == Before(path) + After(path) && forall n :: n in After(path) ==> !Less(n.key, k)
  {
    NoneBelow(After(path), k);
  }

  lemma {:induction false} SplitAtKey(path: Path, t: Tree, s: seq<Node>)
    requires s == Before(path) + InOrder(t) + After(path) && Ascending(KeysOf(s)) && t.Br?
    ensures var a, b := Before(path) + InOrder(t.left), [t.node] + (InOrder(t.right) + After(path));
            s == a + b && AllBelow(KeysOf(a), t.node.key) && forall n :: n in b ==> !Less(n.key, t.node.key)
  {
    var a, c := Before(path) + InOrder(t.left), InOrder(t.right) + After(path);
    WithoutFocus(path, t, s);
    AroundKeys(a, t.node, c);
    NoneBelow(c, t.node.key);
    CmpTotal(t.node.key, t.node.key);
    assert s == a + ([t.node] + c);
  }

  lemma {:induction false} Begin(tree: Tree, root: Node?, elm: Node) returns (path: Path, t: Tree, h: nat)
    requires Rep(tree, root, null) && Ascending(KeysOf(InOrder(tree))) && RbColour.RedBlack(tree) && elm in InOrder(tree)
    ensures At(path, t, root, elm, InOrder(tree)) && Good(path, t, h) && t.Br? && t.node == elm
    ensures InOrder(tree) == (Before(path) + InOrder(t.left)) + [elm] + (InOrder(t.right) + After(path))
    ensures Ascending(KeysOf((Before(path) + InOrder(t.left)) + (InOrder(t.right) + After(path))))
    ensures t.left.Leaf? || t.right.Leaf? ==>
              Before(path) + InOrder(Rest(t)) + After(path) == (Before(path) + InOrder(t.left)) + (InOrder(t.right) + After(path))
  {
    hide At, Good, Ascending, Distinct, InOrder, Before, After;
    var s := InOrder(tree);
    AscendingDistinct(s);
    AtRoot(tree, root);
    GoodTop(tree);
    h :| Good(Top, tree, h);
    path, t, h := Locate(Top, tree, root, root, s, h, elm);
    AtSequence(path, t, root, elm, s);
    WithoutFocus(path, t, s);
  }

  lemma {:induction false} RepMake(c: bool, l: Tree, n: Node, r: Tree, parent: Node?)
    requires n.red == c && n.parent == parent && Rep(l, n.left, n) && Rep(r, n.right, n)
    ensures Rep(Br(c, l, n, r), n, parent)
  {
  }

  lemma {:induction false} PlaceParts(t: Tree, path: Path, elm: Node)
    requires t.Br? && TreeApart(t) && Nodes(t) !! PNodes(path) && elm !in Nodes(t) && elm !in PNodes(path)
    ensures t.node !in Nodes(t.left) && t.node !in Nodes(t.right) && t.node !in PNodes(path) && t.node != elm
    ensures elm !in Nodes(t.left) && elm !in Nodes(t.right)
    ensures Nodes(t.left) !! Nodes(t.right) && Nodes(t.left) !! PNodes(path) && Nodes(t.right) !! PNodes(path)
    ensures Nodes(t.left) <= Nodes(t) && Nodes(t.right) <= Nodes(t)
  {
  }

  // The subtree that stays when a node with at most one child goes.
  ghost function Rest(t: Tree): Tree
    requires t.Br?
  {
    if t.left.Leaf? then t.right else t.left
  }

  lemma {:induction false} DistinctRest(path: Path, t: Tree, s: seq<Node>)
    requires s == Before(path) + InOrder(t) + After(path) && Distinct(s) && t.Br? && (t.left.Leaf? || t.right.Leaf?)
    ensures Distinct(Before(path) + InOrder(Rest(t)) + After(path))
    ensures t.node !in Before(path) + InOrder(Rest(t)) + After(path)
  {
    WithoutFocus(path, t, s);
    var a, b := Before(path) + InOrder(t.left), InOrder(t.right) + After(path);
    assert Before(path) + InOrder(Rest(t)) + After(path) == a + b;
    DistinctSides(a, [t.node], b);
    DistinctSplit(a + [t.node], b);
    DistinctSplit(a, [t.node]);
    assert t.node in [t.node] && t.node in a + [t.node];
  }

  // The sequence without the node at the focus.
  lemma {:induction false} WithoutFocus(path: Path, t: Tree, s: seq<Node>)
    requires s == Before(path) + InOrder(t) + After(path) && t.Br?
    ensures s == (Before(path) + InOrder(t.left)) + [t.node] + (InOrder(t.right) + After(path))
    ensures t.left.Leaf? || t.right.Leaf? ==>
              Before(path) + InOrder(Rest(t)) + After(path) == (Before(path) + InOrder(t.left)) + (InOrder(t.right) + After(path))
    ensures Ascending(KeysOf(s)) ==> Ascending(KeysOf((Before(path) + InOrder(t.left)) + (InOrder(t.right) + After(path))))
  {
    SplitFocus(Before(path), InOrder(t.left), t.node, InOrder(t.right), After(path));
    var a, b := Before(path) + InOrder(t.left), InOrder(t.right) + After(path);
    if Ascending(KeysOf(s)) { AroundKeys(a, t.node, b); }
  }

  lemma {:induction false} SplitFocus(a: seq<Node>, b: seq<Node>, n: Node, c: seq<Node>, d: seq<Node>)
    ensures a + (b + [n] + c) + d == (a + b) + [n] + (c + d)
    ensures b == [] ==> a + c + d == (a + b) + (c + d)
    ensures c == [] ==> a + b + d == (a + b) + (c + d)
  {
  }

  lemma {:induction false} Bypassed(q: Path, tm: Tree, s: seq<Node>)
    requires s == Before(q) + InOrder(tm) + After(q) && Distinct(s) && tm.Br? && tm.left.Leaf?
    ensures var s1 := Before(q) + InOrder(tm.right) + After(q); tm.node !in s1 && forall n :: n in s1 ==> n in s
  {
    DistinctRest(q, tm, s);
  }

  lemma {:induction false} BaseOnPath(sp: Spine, base: Path)
    requires !base.Top?
    ensures base.node in PNodes(Onto(sp, base)) && !Onto(sp, base).Top?
  {
    if sp.SCons? { BaseOnPath(sp.up, base); }
  }

  // Only the empty spine hangs directly below the removed node.
  lemma {:induction false} SpineOwner(sp: Spine, base: Path, t: Tree, root: Node?, p: Node?, s: seq<Node>)
    requires At(Onto(sp, base), t, root, p, s) && !base.Top?
    ensures sp.SNil? <==> Owner(Onto(sp, base)) == base.node
    ensures Owner(Onto(sp, base)) in PNodes(Onto(sp, base))
  {
    if sp.SCons? {
      BaseOnPath(sp.up, base);
      AtApart(Onto(sp, base), t, s);
    }
  }

  // The successor stands first among the nodes after the one it replaces.
  lemma {:induction false} TakenInOrder(path: Path, t: Tree, sp: Spine, tm: Tree)
    requires t.Br? && tm.Br? && tm.left.Leaf? && t.right == Close(sp, tm)
    ensures Before(path) + InOrder(Br(t.red, t.left, tm.node, Close(sp, tm.right))) + After(path)
         == Before(path) + InOrder(t.left) + (InOrder(t.right) + After(path))
  {
    SpineFirst(sp, tm.red, tm.node, tm.right);
    assert tm == Br(tm.red, Leaf, tm.node, tm.right);
    SeqLeft(Before(path), InOrder(t.left), tm.node, InOrder(Close(sp, tm.right)), After(path));
  }

  lemma {:induction false} Recoloured(sp: Spine, q: Path, c: bool, m: Node, n: Node, l: Tree, u: Tree, h: nat, red: bool)
    requires var p := Onto(sp, InRight(q, c, m, l)); if red then Good(p, u, h) else Removing(p, u, h)
    ensures var p := Onto(sp, InRight(q, c, n, l)); if red then Good(p, u, h) else Removing(p, u, h)
  {
    SameColours(sp, q, c, m, n, l, if red then h else h + 1);
    TopOnto(sp, q, c, m, l);
  }

  // A node from outside may stand in for the one at the focus.
  lemma {:induction false} Outside(path: Path, t: Tree, s: seq<Node>, elm: Node)
    requires s == Before(path) + InOrder(t) + After(path) && Distinct(s) && t.Br? && elm !in s
    ensures elm !in Nodes(t) && elm !in PNodes(path)
    ensures Distinct(Before(path) + InOrder(t.(node := elm)) + After(path))
  {
    NodesInOrder(t);
    NodesOfPath(path);
    WithoutFocus(path, t, s);
    var a, b := Before(path) + InOrder(t.left), InOrder(t.right) + After(path);
    SplitFocus(Before(path), InOrder(t.left), elm, InOrder(t.right), After(path));
    DistinctSwap(a, t.node, elm, b);
  }

  lemma {:induction false} DistinctSwap(a: seq<Node>, m: Node, n: Node, b: seq<Node>)
    requires Distinct(a + [m] + b) && n !in a + [m] + b
    ensures Distinct(a + [n] + b)
  {
    var s, c := a + [m] + b, a + [n] + b;
    forall i, j | 0 <= i < j < |c| ensures c[i] != c[j] {
      assert i != |a| ==> c[i] == s[i];
      assert j != |a| ==> c[j] == s[j];
    }
  }

  // The focus can be moved to any node of the tree.
  lemma {:induction false} Locate(path: Path, t: Tree, root: Node?, p: Node?, s: seq<Node>, h: nat, elm: Node)
    returns (path': Path, t': Tree, h': nat)
    requires At(path, t, root, p, s) && Good(path, t, h) && elm in InOrder(t)
    ensures At(path', t', root, elm, s) && Good(path', t', h') && t'.Br? && t'.node == elm
    decreases t
  {
    hide At, Good;
    Look(path, t, root, p, s);
    if elm == t.node {
      path', t', h' := path, t, h;
    } else if elm in InOrder(t.left) {
      DownLeft(path, t, root, p, s);
      GoodDownLeft(path, t, h);
      path', t', h' := Locate(InLeft(path, t.red, t.node, t.right), t.left, root, p.left, s, if t.red then h else h - 1, elm);
    } else {
      DownRight(path, t, root, p, s);
      GoodDownRight(path, t, h);
      path', t', h' := Locate(InRight(path, t.red, t.node, t.left), t.right, root, p.right, s, if t.red then h else h - 1, elm);
    }
  }

  // When the sibling's pointer is compared first, a leaf focus needs its side to be known.
  lemma {:induction false} LeftFocus(path: Path, t: Tree, root: Node?, p: Node?, s: seq<Node>, h: nat)
    requires At(path, t, root, p, s) && Removing(path, t, h) && !path.Top? && path.node.left == p
    ensures path.InLeft?
  {
    Look(path, t, root, p, s);
    Sibling(path, t, h);
    if path.InRight? { RepView(path.sib, path.node.left, path.node); }
  }

  lemma {:induction false} ToTop(path: Path, t: Tree, root: Node?, s: seq<Node>, h: nat) returns (path': Path, t': Tree)
    requires Good(path, t, h) && exists p :: At(path, t, root, p, s)
    ensures path' == Top && At(path', t', root, root, s)
    ensures RbColour.RedBlack(Plug(path', BlackRoot(t')))
  {
    var p :| At(path, t, root, p, s);
    path', t' := Top, Plug(path, t);
    GoodPlug(path, t, h);
    AtTop(path, t, root, p, s);
    AtRoot(t', root);
  }

  // A left rotation half done: elm holds a and b, tmp holds d, and neither holds the other.
  ghost predicate Open(elm: Node, tmp: Node, c: bool, e: bool, a: Tree, b: Tree, d: Tree, parent: Node?)
    reads elm, tmp, Nodes(a), Nodes(b), Nodes(d)
  {
    && elm != tmp && elm.red == c && tmp.red == e && tmp.parent == parent && elm.parent == parent
    && Rep(a, elm.left, elm) && Rep(b, elm.right, elm) && Rep(d, tmp.right, tmp)
    && elm !in Nodes(a) && elm !in Nodes(b) && elm !in Nodes(d)
    && tmp !in Nodes(a) && tmp !in Nodes(b) && tmp !in Nodes(d)
  }

  ghost predicate LeftApart(path: Path, t: Tree)
    requires t.Br? && t.right.Br?
  {
    var elm, tmp, a, b, d := t.node, t.right.node, Nodes(t.left), Nodes(t.right.left), Nodes(t.right.right);
    && elm != tmp && elm !in a && elm !in b && elm !in d && tmp !in a && tmp !in b && tmp !in d
    && a !! b && a !! d && b !! d && TreeApart(t.right.left)
    && elm !in PNodes(path) && tmp !in PNodes(path) && b !! PNodes(path)
  }

  ghost predicate OpenRight(elm: Node, tmp: Node, c: bool, e: bool, a: Tree, b: Tree, d: Tree, parent: Node?)
    reads elm, tmp, Nodes(a), Nodes(b), Nodes(d)
  {
    && elm != tmp && elm.red == c && tmp.red == e && tmp.parent == parent && elm.parent == parent
    && Rep(a, tmp.left, tmp) && Rep(b, elm.left, elm) && Rep(d, elm.right, elm)
    && elm !in Nodes(a) && elm !in Nodes(b) && elm !in Nodes(d)
    && tmp !in Nodes(a) && tmp !in Nodes(b) && tmp !in Nodes(d)
  }

  ghost predicate RightApart(path: Path, t: Tree)
    requires t.Br? && t.left.Br?
  {
    var elm, tmp, a, b, d := t.node, t.left.node, Nodes(t.left.left), Nodes(t.left.right), Nodes(t.right);
    && elm != tmp && elm !in a && elm !in b && elm !in d && tmp !in a && tmp !in b && tmp !in d
    && a !! b && a !! d && b !! d && TreeApart(t.left.right)
    && elm !in PNodes(path) && tmp !in PNodes(path) && b !! PNodes(path)
  }

  lemma {:induction false} RightParts(path: Path, t: Tree, elm: Node)
    requires t.Br? && t.left.Br? && Nodes(t) !! PNodes(path)
    requires TreeApart(t) && TreeApart(t.left) && TreeApart(t.left.right)
    ensures RightApart(path, t)
    ensures Nodes(t) == Nodes(t.left.left) + Nodes(t.left.right) + Nodes(t.right) + {t.node, t.left.node}
  {
  }

  lemma {:induction false} LeftParts(path: Path, t: Tree, elm: Node)
    requires t.Br? && t.right.Br? && Nodes(t) !! PNodes(path)
    requires TreeApart(t) && TreeApart(t.right) && TreeApart(t.right.left)
    ensures LeftApart(path, t)
    ensures Nodes(t) == Nodes(t.left) + Nodes(t.right.left) + Nodes(t.right.right) + {t.node, t.right.node}
  {
  }

  lemma {:induction false} RotatedInOrder(c: bool, e: bool, a: Tree, x: Node, b: Tree, y: Node, d: Tree)
    ensures InOrder(Br(c, a, x, Br(e, b, y, d))) == InOrder(Br(e, Br(c, a, x, b), y, d))
  {
    var i, j, k := InOrder(a), InOrder(b), InOrder(d);
    assert (i + [x] + j) + [y] + k == i + [x] + (j + [y] + k);
  }

  /*** Keys ***/

  ghost function KeysOf(s: seq<Node>): (ks: seq<Text>)
    ensures |ks| == |s| && forall i :: 0 <= i < |s| ==> ks[i] == s[i].key
  {
    seq(|s|, i requires 0 <= i < |s| => s[i].key)
  }

  lemma {:induction false} KeysAppend(s: seq<Node>, t: seq<Node>)
    ensures KeysOf(s + t) == KeysOf(s) + KeysOf(t)
  {
  }

  lemma {:induction false} AscendingDistinct(s: seq<Node>)
    requires Ascending(KeysOf(s))
    ensures Distinct(s)
  {
    forall i, j | 0 <= i < j < |s| ensures s[i] != s[j] {
      assert Less(KeysOf(s)[i], KeysOf(s)[j]);
      CmpTotal(s[i].key, s[j].key);
    }
  }

  lemma {:induction false} NothingAround(k: Text)
    ensures AllBelow(KeysOf(Before(Top)), k) && AllAbove(KeysOf(After(Top)), k)
  {
  }

  lemma {:induction false} InsertingGrandparent(p: Path, t: Tree, h: nat)
    requires Inserting(p, t, h)
    ensures t.Br? && (OwnerRed(p) ==> !p.up.Top?)
  {
    if OwnerRed(p) { Grandparent(p, t, h); }
  }

  // At a node, the keys of its left subtree are below its key and those of its right above.
  lemma {:induction false} OrderAround(path: Path, t: Tree, s: seq<Node>)
    requires s == Before(path) + InOrder(t) + After(path) && Ascending(KeysOf(s)) && t.Br?
    ensures AllBelow(KeysOf(InOrder(t.left)), t.node.key) && AllAbove(KeysOf(InOrder(t.right)), t.node.key)
  {
    hide InOrder, Before, After, Ascending, AllBelow, AllAbove;
    WithoutFocus(path, t, s);
    var a, b := Before(path) + InOrder(t.left), InOrder(t.right) + After(path);
    AroundKeys(a, t.node, b);
    PartBelow(Before(path), InOrder(t.left), t.node.key);
    PartAbove(InOrder(t.right), After(path), t.node.key);
  }

  lemma {:induction false} AroundKeys(a: seq<Node>, n: Node, b: seq<Node>)
    requires Ascending(KeysOf(a + [n] + b))
    ensures AllBelow(KeysOf(a), n.key) && AllAbove(KeysOf(b), n.key) && Ascending(KeysOf(a + b))
  {
    KeysAppend(a + [n], b);
    KeysAppend(a, [n]);
    KeysAppend(a, b);
    assert KeysOf([n]) == [n.key];
    AscendingSplit(KeysOf(a), n.key, KeysOf(b));
  }

  lemma {:induction false} PartBelow(a: seq<Node>, b: seq<Node>, k: Text)
    requires AllBelow(KeysOf(a + b), k)
    ensures AllBelow(KeysOf(b), k)
  {
    assert forall i :: 0 <= i < |b| ==> KeysOf(b)[i] == KeysOf(a + b)[|a| + i];
  }

  lemma {:induction false} PartAbove(a: seq<Node>, b: seq<Node>, k: Text)
    requires AllAbove(KeysOf(a + b), k)
    ensures AllAbove(KeysOf(a), k)
  {
    assert forall i :: 0 <= i < |a| ==> KeysOf(a)[i] == KeysOf(a + b)[i];
  }

  lemma {:induction false} FocusIn(path: Path, t: Tree, s: seq<Node>)
    requires s == Before(path) + InOrder(t) + After(path) && t.Br?
    ensures t.node in s
  {
    assert t.node in InOrder(t);
  }

  lemma {:induction false} GoLeft(path: Path, t: Tree, k: Text)
    requires t.Br? && AllAbove(KeysOf(After(path)), k) && Less(k, t.node.key)
    requires AllAbove(KeysOf(InOrder(t.right)), t.node.key)
    ensures AllAbove(KeysOf(After(InLeft(path, t.red, t.node, t.right))), k)
    ensures Before(InLeft(path, t.red, t.node, t.right)) == Before(path)
  {
    AboveTrans(KeysOf(InOrder(t.right)), t.node.key, k);
    KeysAppend([t.node] + InOrder(t.right), After(path));
    KeysAppend([t.node], InOrder(t.right));
  }

  lemma {:induction false} GoRight(path: Path, t: Tree, k: Text)
    requires t.Br? && AllBelow(KeysOf(Before(path)), k) && Less(t.node.key, k)
    requires AllBelow(KeysOf(InOrder(t.left)), t.node.key)
    ensures AllBelow(KeysOf(Before(InRight(path, t.red, t.node, t.left))), k)
    ensures After(InRight(path, t.red, t.node, t.left)) == After(path)
  {
    BelowTrans(KeysOf(InOrder(t.left)), t.node.key, k);
    KeysAppend(Before(path), InOrder(t.left) + [t.node]);
    KeysAppend(InOrder(t.left), [t.node]);
  }

  lemma {:induction false} FreshNode(path: Path, elm: Node, s: seq<Node>)
    requires s == Before(path) + InOrder(Leaf) + After(path) && Distinct(s) && elm !in s
    ensures elm !in PNodes(path) && Distinct(Before(path) + [elm] + After(path))
  {
    NodesOfPath(path);
    var a, b := Before(path), After(path);
    assert s == a + b;
    var c := a + [elm] + b;
    forall i, j | 0 <= i < j < |c| ensures c[i] != c[j] {
      if i != |a| && j != |a| {
        var i', j' := if i < |a| then i else i - 1, if j < |a| then j else j - 1;
        assert c[i] == s[i'] && c[j] == s[j'];
      } else if i == |a| {
        assert c[j] == s[j - 1];
      } else {
        assert c[i] == s[i];
      }
    }
  }

  // A red leaf in the hole the search ended at.
  lemma {:induction false} LeafHole(path: Path, h: nat, elm: Node, s: seq<Node>)
    requires Good(path, Leaf, h) && s == Before(path) + InOrder(Leaf) + After(path) && Ascending(KeysOf(s))
    requires AllBelow(KeysOf(Before(path)), elm.key) && AllAbove(KeysOf(After(path)), elm.key)
    ensures h == 0 && Inserting(path, Br(true, Leaf, elm, Leaf), 0)
    ensures s == Before(path) + After(path)
    ensures Ascending(KeysOf(Before(path) + [elm] + After(path)))
  {
    assert Bal(Leaf, h);
    var a, b := Before(path), After(path);
    assert s == a + b;
    KeysAppend(a, b);
    AscendingInsert(KeysOf(a), elm.key, KeysOf(b));
    KeysAppend(a + [elm], b);
    KeysAppend(a, [elm]);
    assert KeysOf([elm]) == [elm.key];
  }
}
