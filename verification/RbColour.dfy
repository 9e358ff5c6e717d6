/** The colour rules of the red-black trees of openbsd-compat/sys/tree.h, what a node
    being inserted or removed may break of them, and how each fix-up case repairs it. */
module RbColour {
  import opened Common
  import Modular
  import opened RbShape

  predicate IsRed(t: Tree) {
    t.Br? && t.red
  }

  // No red node has a red child.
  ghost predicate NoRedRed(t: Tree) {
    t.Br? ==> NoRedRed(t.left) && NoRedRed(t.right) && (t.red ==> !IsRed(t.left) && !IsRed(t.right))
  }

  // Every way down from t passes h black nodes.
  ghost predicate Bal(t: Tree, h: nat) {
    match t
    case Leaf => h == 0
    case Br(c, l, _, r) =>
      if c then Bal(l, h) && Bal(r, h) else h > 0 && Bal(l, h - 1) && Bal(r, h - 1)
  }

  // The three conditions of the header's comment: black root, no red child of a red
  // node, equal black heights.
  ghost predicate RedBlack(t: Tree) {
    !IsRed(t) && NoRedRed(t) && exists h: nat :: Bal(t, h)
  }

  // Putting a tree of black height h into the hole balances the whole.
  ghost predicate PathBal(p: Path, h: nat) {
    !p.Top? ==> Bal(p.sib, h) && PathBal(p.up, if p.red then h else h + 1)
  }

  predicate OwnerRed(p: Path) {
    !p.Top? && p.red
  }

  // No red-red pair on the path or in a subtree hanging off it.
  ghost predicate PathOk(p: Path) {
    !p.Top? ==> PathOk(p.up) && NoRedRed(p.sib) && (p.red ==> !IsRed(p.sib) && !OwnerRed(p.up))
  }

  predicate TopBlack(p: Path) {
    !p.Top? ==> TopBlack(p.up) && (p.up.Top? ==> !p.red)
  }

  ghost predicate Surround(p: Path, h: nat) {
    PathBal(p, h) && PathOk(p) && TopBlack(p)
  }

  // A red-black tree seen from the focus.
  ghost predicate Good(p: Path, t: Tree, h: nat) {
    && Surround(p, h) && Bal(t, h) && NoRedRed(t)
    && !(IsRed(t) && (p.Top? || OwnerRed(p)))
  }

  // Insertion in progress: the red node at the focus may have a red parent or be the root.
  ghost predicate Inserting(p: Path, t: Tree, h: nat) {
    Surround(p, h) && Bal(t, h) && NoRedRed(t) && IsRed(t)
  }

  // Removal in progress: the focus is one black node short, and only its root may
  // clash in colour.
  ghost predicate Removing(p: Path, t: Tree, h: nat) {
    Surround(p, h + 1) && Bal(t, h) && (t.Br? ==> NoRedRed(t.left) && NoRedRed(t.right)) && (!IsRed(t) ==> NoRedRed(t))
  }

  lemma {:induction false} GoodTop(t: Tree)
    requires RedBlack(t)
    ensures exists h: nat :: Good(Top, t, h)
  {
    var h: nat :| Bal(t, h);
    assert Good(Top, t, h);
  }

  lemma {:induction false} GoodUp(p: Path, t: Tree, h: nat)
    requires Good(p, t, h) && !p.Top?
    ensures Good(p.up, Refill(p, t), if p.red then h else h + 1)
  {
  }

  lemma {:induction false} GoodDownLeft(p: Path, t: Tree, h: nat)
    requires Good(p, t, h) && t.Br?
    ensures t.red || h > 0
    ensures Good(InLeft(p, t.red, t.node, t.right), t.left, if t.red then h else h - 1)
  {
  }

  lemma {:induction false} GoodDownRight(p: Path, t: Tree, h: nat)
    requires Good(p, t, h) && t.Br?
    ensures t.red || h > 0
    ensures Good(InRight(p, t.red, t.node, t.left), t.right, if t.red then h else h - 1)
  {
  }

  // Good at any focus means red-black at the root.
  lemma {:induction false} GoodPlug(p: Path, t: Tree, h: nat)
    requires Good(p, t, h)
    ensures RedBlack(Plug(p, t))
    decreases p
  {
    if !p.Top? {
      GoodUp(p, t, h);
      GoodPlug(p.up, Refill(p, t), if p.red then h else h + 1);
    }
  }

  /*** Insertion ***/

  // The shape at the grandparent when the parent of the focus is red.
  lemma {:induction false} Grandparent(p: Path, t: Tree, h: nat)
    requires Inserting(p, t, h) && OwnerRed(p)
    ensures !p.up.Top? && !p.up.red && Surround(p.up.up, h + 1)
    ensures Bal(p.sib, h) && NoRedRed(p.sib) && !IsRed(p.sib)
    ensures Bal(p.up.sib, h) && NoRedRed(p.up.sib)
  {
    assert Surround(p.up, h);
  }

  // Taking a red node apart, and making one.
  lemma {:induction false} RedKids(t: Tree, h: nat)
    requires Bal(t, h) && NoRedRed(t) && IsRed(t)
    ensures Bal(t.left, h) && NoRedRed(t.left) && !IsRed(t.left)
    ensures Bal(t.right, h) && NoRedRed(t.right) && !IsRed(t.right)
  {
  }

  lemma {:induction false} MakeRed(l: Tree, n: Node, r: Tree, h: nat)
    requires Bal(l, h) && NoRedRed(l) && Bal(r, h) && NoRedRed(r)
    ensures Bal(Br(true, l, n, r), h)
    ensures !IsRed(l) && !IsRed(r) ==> NoRedRed(Br(true, l, n, r))
  {
  }

  // A red uncle: blackness moves from the grandparent to its two children.
  lemma {:induction false} PushedBlack(p: Path, a: Tree, g: Node, b: Tree, h: nat)
    requires Surround(p, h + 1) && IsRed(a) && IsRed(b)
    requires Bal(a, h) && Bal(b, h)
    requires NoRedRed(a.left) && NoRedRed(a.right) && NoRedRed(b.left) && NoRedRed(b.right)
    ensures Inserting(p, Br(true, a.(red := false), g, b.(red := false)), h + 1)
  {
  }

  // A black uncle, outer grandchild: the rotated subtree satisfies the rules, and the
  // focus, now below a black parent, is finished.
  lemma {:induction false} RotatedLeftLeft(q: Path, a: Tree, parent: Node, b: Tree, g: Node, uncle: Tree, h: nat)
    requires Surround(q, h + 1) && Bal(a, h) && Bal(b, h) && Bal(uncle, h)
    requires IsRed(a) && !IsRed(b) && !IsRed(uncle) && NoRedRed(a) && NoRedRed(b) && NoRedRed(uncle)
    ensures Inserting(InLeft(q, false, parent, Br(true, b, g, uncle)), a, h)
  {
  }

  lemma {:induction false} RotatedRightRight(q: Path, a: Tree, parent: Node, b: Tree, g: Node, uncle: Tree, h: nat)
    requires Surround(q, h + 1) && Bal(a, h) && Bal(b, h) && Bal(uncle, h)
    requires IsRed(a) && !IsRed(b) && !IsRed(uncle) && NoRedRed(a) && NoRedRed(b) && NoRedRed(uncle)
    ensures Inserting(InRight(q, false, parent, Br(true, uncle, g, b)), a, h)
  {
  }

  // When the parent is not red, blackening the root restores everything.
  lemma {:induction false} Inserted(p: Path, t: Tree, h: nat)
    requires Inserting(p, t, h) && !OwnerRed(p)
    ensures RedBlack(BlackRoot(Plug(p, t)))
  {
    if p.Top? {
      assert Bal(t.(red := false), h + 1);
    } else {
      assert Good(p, t, h);
      GoodPlug(p, t, h);
      assert BlackRoot(Plug(p, t)) == Plug(p, t);
    }
  }

  function BlackRoot(t: Tree): Tree {
    if t.Br? then t.(red := false) else t
  }

  /*** Removal ***/

  // What stands beside a focus that is one black node short.
  lemma {:induction false} Sibling(p: Path, t: Tree, h: nat)
    requires Removing(p, t, h) && !p.Top?
    ensures p.sib.Br? && Bal(p.sib, h + 1) && NoRedRed(p.sib)
    ensures IsRed(p.sib) ==> !p.red && p.sib.left.Br? && p.sib.right.Br? && !IsRed(p.sib.left) && !IsRed(p.sib.right)
  {
    var w := p.sib;
    assert Bal(w, h + 1);
    if IsRed(w) { assert Bal(w.left, h + 1) && Bal(w.right, h + 1); }
  }

  // A red sibling is rotated up; the focus gets a black sibling and a red parent.
  lemma {:induction false} RedSiblingLeft(p: Path, t: Tree, h: nat)
    requires Removing(p, t, h) && p.InLeft? && IsRed(p.sib)
    ensures var w := p.sib;
            Removing(InLeft(InLeft(p.up, false, w.node, w.right), true, p.node, w.left), t, h)
  {
  }

  lemma {:induction false} RedSiblingRight(p: Path, t: Tree, h: nat)
    requires Removing(p, t, h) && p.InRight? && IsRed(p.sib)
    ensures var w := p.sib;
            Removing(InRight(InRight(p.up, false, w.node, w.left), true, p.node, w.right), t, h)
  {
  }

  // A black sibling with black children turns red; the shortage moves to the parent.
  lemma {:induction false} PassUp(p: Path, t: Tree, h: nat)
    requires Removing(p, t, h) && !p.Top? && !IsRed(t) && p.sib.Br? && !p.sib.red
    requires !IsRed(p.sib.left) && !IsRed(p.sib.right)
    ensures Removing(p.up, Refill(p.(sib := p.sib.(red := true)), t), if p.red then h else h + 1)
  {
    Sibling(p, t, h);
  }

  // A black sibling whose inner child alone is red is rotated into the last case.
  lemma {:induction false} InnerRedLeft(p: Path, t: Tree, h: nat)
    requires Removing(p, t, h) && p.InLeft? && p.sib.Br? && !p.sib.red
    requires IsRed(p.sib.left) && !IsRed(p.sib.right)
    ensures Removing(InLeft(p.up, p.red, p.node, TurnedRight(p.sib)), t, h)
  {
    Sibling(p, t, h);
  }

  lemma {:induction false} InnerRedRight(p: Path, t: Tree, h: nat)
    requires Removing(p, t, h) && p.InRight? && p.sib.Br? && !p.sib.red
    requires IsRed(p.sib.right) && !IsRed(p.sib.left)
    ensures Removing(InRight(p.up, p.red, p.node, TurnedLeft(p.sib)), t, h)
  {
    Sibling(p, t, h);
  }

  function TurnedRight(w: Tree): Tree
    requires w.Br? && w.left.Br?
  {
    Br(false, w.left.left, w.left.node, Br(true, w.left.right, w.node, w.right))
  }

  function TurnedLeft(w: Tree): Tree
    requires w.Br? && w.right.Br?
  {
    Br(false, Br(true, w.left, w.node, w.right.left), w.right.node, w.right.right)
  }

  // A black sibling with a red outer child: one rotation makes up the shortage.
  lemma {:induction false} OuterRedLeft(p: Path, t: Tree, h: nat)
    requires Removing(p, t, h) && p.InLeft? && !IsRed(t) && p.sib.Br? && !p.sib.red && IsRed(p.sib.right)
    ensures var w := p.sib;
            Good(p.up, Br(p.red, Br(false, t, p.node, w.left), w.node, w.right.(red := false)), if p.red then h + 1 else h + 2)
  {
    Sibling(p, t, h);
  }

  lemma {:induction false} OuterRedRight(p: Path, t: Tree, h: nat)
    requires Removing(p, t, h) && p.InRight? && !IsRed(t) && p.sib.Br? && !p.sib.red && IsRed(p.sib.left)
    ensures var w := p.sib;
            Good(p.up, Br(p.red, w.left.(red := false), w.node, Br(false, w.right, p.node, t)), if p.red then h + 1 else h + 2)
  {
    Sibling(p, t, h);
  }

  // At the root, or at a red focus, painting the focus black finishes the removal.
  lemma {:induction false} Removed(p: Path, t: Tree, h: nat)
    requires Removing(p, t, h) && (p.Top? || IsRed(t))
    ensures RedBlack(Plug(p, BlackRoot(t)))
  {
    if IsRed(t) {
      var u := t.(red := false);
      assert Bal(u, h + 1) && Good(p, u, h + 1);
      GoodPlug(p, u, h + 1);
    } else {
      assert Good(p, t, h);
      GoodPlug(p, t, h);
    }
  }

  // Unlinking a node with at most one child leaves that child in its place.
  lemma {:induction false} Unlinked(p: Path, t: Tree, h: nat)
    requires Good(p, t, h) && t.Br? && (t.left.Leaf? || t.right.Leaf?)
    ensures var u := if t.left.Leaf? then t.right else t.left;
            if t.red then Good(p, u, h) else h > 0 && Removing(p, u, h - 1)
  {
    var u := if t.left.Leaf? then t.right else t.left;
    assert Bal(u, if t.red then h else h - 1) && NoRedRed(u);
  }

  // Only the colours on a path matter, not which nodes carry them.
  lemma {:induction false} SameColours(sp: Spine, q: Path, c: bool, m: Node, n: Node, l: Tree, h: nat)
    requires Surround(Onto(sp, InRight(q, c, m, l)), h)
    ensures Surround(Onto(sp, InRight(q, c, n, l)), h)
    ensures OwnerRed(Onto(sp, InRight(q, c, n, l))) == OwnerRed(Onto(sp, InRight(q, c, m, l)))
    ensures !Onto(sp, InRight(q, c, n, l)).Top?
    decreases sp
  {
    if sp.SCons? {
      SameColours(sp.up, q, c, m, n, l, if sp.red then h else h + 1);
      assert Onto(sp, InRight(q, c, m, l)).up == Onto(sp.up, InRight(q, c, m, l));
      assert Onto(sp, InRight(q, c, n, l)).up == Onto(sp.up, InRight(q, c, n, l));
      TopOnto(sp.up, q, c, m, l);
    }
  }

  lemma {:induction false} TopOnto(sp: Spine, q: Path, c: bool, m: Node, l: Tree)
    ensures !Onto(sp, InRight(q, c, m, l)).Top?
  {
  }

  /*** The height bound ***/

  ghost function Size(t: Tree): nat {
    match t
    case Leaf => 0
    case Br(_, l, _, r) => Size(l) + 1 + Size(r)
  }

  ghost function Height(t: Tree): nat {
    match t
    case Leaf => 0
    case Br(_, l, _, r) => 1 + if Height(l) < Height(r) then Height(r) else Height(l)
  }

  lemma {:induction false} SizeByBlackHeight(t: Tree, h: nat)
    requires Bal(t, h)
    ensures Size(t) + 1 >= Pow2(h)
  {
    if t.Br? {
      var k := if t.red then h else h - 1;
      SizeByBlackHeight(t.left, k);
      SizeByBlackHeight(t.right, k);
    }
  }

  lemma {:induction false} HeightByBlackHeight(t: Tree, h: nat)
    requires Bal(t, h) && NoRedRed(t)
    ensures Height(t) <= 2 * h + if IsRed(t) then 1 else 0
  {
    if t.Br? {
      var k := if t.red then h else h - 1;
      HeightByBlackHeight(t.left, k);
      HeightByBlackHeight(t.right, k);
    }
  }

  lemma {:induction false} SizeIsCount(t: Tree)
    ensures Size(t) == |InOrder(t)|
  {
    if t.Br? {
      SizeIsCount(t.left);
      SizeIsCount(t.right);
    }
  }

  // The height is at most 2 lg(n + 1) for n elements, said without logarithms: 2^height <=
  // (n + 1)^2.
  lemma {:induction false} HeightBound(t: Tree)
    requires RedBlack(t)
    ensures Pow2(Height(t)) <= (|InOrder(t)| + 1) * (|InOrder(t)| + 1)
  {
    SizeIsCount(t);
    var h: nat :| Bal(t, h);
    SizeByBlackHeight(t, h);
    HeightByBlackHeight(t, h);
    Pow2Monotone(Height(t), 2 * h);
    Pow2Add(h, h);
    MulBothMono(Pow2(h), Size(t) + 1);
    assert h + h == 2 * h;
  }

  lemma {:induction false} DepthBound(t: Tree, d: nat)
    requires RedBlack(t) && d <= Height(t)
    ensures Pow2(d) <= (|InOrder(t)| + 1) * (|InOrder(t)| + 1)
  {
    hide RedBlack, Height, InOrder;
    HeightBound(t);
    Pow2Monotone(d, Height(t));
  }

  lemma {:induction false} HeightDown(t: Tree)
    requires t.Br?
    ensures Height(t.left) + 1 <= Height(t) && Height(t.right) + 1 <= Height(t)
  {
  }

  lemma {:induction false} MulBothMono(x: nat, y: nat)
    requires x <= y
    ensures x * x <= y * y
  {
    assert y * y - x * x == (y - x) * (y + x);
  }

  lemma {:induction false} Pow2Monotone(m: nat, n: nat)
    requires m <= n
    ensures Pow2(m) <= Pow2(n)
  {
    if m < n { Pow2Monotone(m, n - 1); }
  }

  lemma {:induction false} Pow2Add(m: nat, n: nat)
    ensures Pow2(m + n) == Pow2(m) * Pow2(n)
  {
    if m > 0 {
      Pow2Add(m - 1, n);
      Modular.MulAssoc(2, Pow2(m - 1), Pow2(n));
    }
  }
}
