/** The tree that the bounce engine files its waiting messages in (usr.sbin/smtpd/bounce.c):
    the splay tree under bounce_message_cmp, as a set of keys. */
module BounceTree {
  import opened Common
  import opened Keys
  import opened BounceQueue
  import opened Splay

  /*** The order ***/

  // memcmp of two areas of one size, by its sign
  function MemCmp(a: Text, b: Text): int
    requires |a| == |b|
  {
    if a == [] then 0
    else if a[0] < b[0] then -1
    else if b[0] < a[0] then 1
    else MemCmp(a[1..], b[1..])
  }

  lemma {:induction false} MemIsStr(a: Text, b: Text)
    requires |a| == |b|
    ensures MemCmp(a, b) == StrCmp(a, b)
  {
    if a != [] && a[0] == b[0] {
      MemIsStr(a[1..], b[1..]);
    }
  }

  // bounce_message_cmp
  function MessageCmp(a: Key, b: Key): int
    requires |a.bounce| == |b.bounce|
  {
    if a.msgid < b.msgid then -1
    else if a.msgid > b.msgid then 1
    else
      var r := StrCmp(a.smtpname, b.smtpname);
      if r != 0 then r else MemCmp(a.bounce, b.bounce)
  }

  // One string for the three parts of a key, ordered like the keys: 0 ends the name.
  function KeyText(k: Key): (t: Text)
    ensures t != []
  {
    [k.msgid] + (Shifted(k.smtpname) + ([0] + k.bounce))
  }

  function Shifted(s: Text): (t: Text)
    ensures |t| == |s|
  {
    seq(|s|, i requires 0 <= i < |s| => s[i] + 1)
  }

  lemma {:induction false} TextOrder(s: Text, t: Text, u: Text, v: Text)
    ensures StrCmp(Shifted(s) + ([0] + u), Shifted(t) + ([0] + v)) == if StrCmp(s, t) != 0 then StrCmp(s, t) else StrCmp(u, v)
  {
    var a, b := Shifted(s) + ([0] + u), Shifted(t) + ([0] + v);
    if s == [] || t == [] {
      assert s == [] ==> a == [0] + u;
      assert t == [] ==> b == [0] + v;
      assert ([0] + u)[1..] == u && ([0] + v)[1..] == v;
    } else {
      assert Shifted(s)[1..] == Shifted(s[1..]) && Shifted(t)[1..] == Shifted(t[1..]);
      assert a[1..] == Shifted(s[1..]) + ([0] + u) && b[1..] == Shifted(t[1..]) + ([0] + v);
      TextOrder(s[1..], t[1..], u, v);
    }
  }

  // The splay tree on these strings does what it does under bounce_message_cmp.
  lemma {:induction false} KeyOrder(a: Key, b: Key)
    requires |a.bounce| == |b.bounce|
    ensures StrCmp(KeyText(a), KeyText(b)) == MessageCmp(a, b)
  {
    hide Shifted;
    TextOrder(a.smtpname, b.smtpname, a.bounce, b.bounce);
    MemIsStr(a.bounce, b.bounce);
    assert KeyText(a)[1..] == Shifted(a.smtpname) + ([0] + a.bounce);
    assert KeyText(b)[1..] == Shifted(b.smtpname) + ([0] + b.bounce);
  }

  lemma {:induction false} KeyTextInjective(a: Key, b: Key)
    requires KeyText(a) == KeyText(b)
    ensures a == b
  {
    hide StrCmp, Shifted;
    TextOrder(a.smtpname, b.smtpname, a.bounce, b.bounce);
    var ra, rb := Shifted(a.smtpname) + ([0] + a.bounce), Shifted(b.smtpname) + ([0] + b.bounce);
    assert ra == KeyText(a)[1..] == KeyText(b)[1..] == rb;
    assert a.msgid == KeyText(a)[0] == KeyText(b)[0] == b.msgid;
    CmpEqual(ra, rb);
    CmpEqual(a.smtpname, b.smtpname);
    CmpEqual(a.bounce, b.bounce);
  }

  /*** The tree ***/

  // The nodes hold exactly these keys.
  ghost predicate Files(s: seq<Node>, keys: set<Key>) {
    && (forall n :: n in s ==> exists k :: k in keys && n.key == KeyText(k))
    && (forall k :: k in keys ==> exists n :: n in s && n.key == KeyText(k))
  }

  lemma {:induction false} FilesFind(s: seq<Node>, keys: set<Key>, k: Key)
    requires Files(s, keys)
    ensures k in keys <==> exists n :: n in s && n.key == KeyText(k)
  {
    hide KeyText;
    if n :| n in s && n.key == KeyText(k) {
      var k' :| k' in keys && n.key == KeyText(k');
      KeyTextInjective(k, k');
    }
  }

  lemma {:induction false} FilesInsert(a: seq<Node>, b: seq<Node>, keys: set<Key>, n: Node, k: Key)
    requires Files(a + b, keys) && n.key == KeyText(k)
    ensures Files(a + [n] + b, keys + {k})
  {
    hide KeyText;
    var s, t := a + b, a + [n] + b;
    assert forall x :: x in t <==> x in s || x == n;
  }

  lemma {:induction false} FilesRemove(a: seq<Node>, b: seq<Node>, keys: set<Key>, n: Node, k: Key)
    requires Files(a + [n] + b, keys) && n.key == KeyText(k) && Sorted(a + [n] + b)
    ensures Files(a + b, keys - {k})
  {
    hide KeyText, Sorted, Files;
    OneNode(a, n, b);
    assert forall x :: x in a + [n] + b <==> x in a + b || x == n;
    FilesLess(a + [n] + b, a + b, keys, n, k);
  }

  lemma {:induction false} FilesLess(t: seq<Node>, s: seq<Node>, keys: set<Key>, n: Node, k: Key)
    requires Files(t, keys) && n.key == KeyText(k)
    requires (forall x :: x in t <==> x in s || x == n) && forall x :: x in s ==> x.key != n.key
    ensures Files(s, keys - {k})
  {
    hide KeyText;
    forall x | x in s
      ensures exists y :: y in keys - {k} && x.key == KeyText(y)
    {
      var y :| y in keys && x.key == KeyText(y);
      assert y in keys - {k};
    }
    forall y | y in keys - {k}
      ensures exists x :: x in s && x.key == KeyText(y)
    {
      var x :| x in t && x.key == KeyText(y);
      assert x != n by {
        if x == n { KeyTextInjective(y, k); }
      }
    }
  }

  lemma {:induction false} OneNode(a: seq<Node>, n: Node, b: seq<Node>)
    requires Sorted(a + [n] + b)
    ensures forall x :: x in a + b ==> x.key != n.key
  {
    hide StrCmp;
    var t := a + [n] + b;
    assert t[|a|] == n;
    forall x | x in a + b
      ensures x.key != n.key
    {
      CmpTotal(x.key, n.key);
      var i :| 0 <= i < |a + b| && (a + b)[i] == x;
      assert t[if i < |a| then i else i + 1] == x;
    }
  }

  class MessageTree {
    const head: Head
    ghost var keys: set<Key>
    ghost var nodes: set<Node>

    ghost predicate Valid()
      reads `keys, `nodes, head`root, head`tree, nodes`left, nodes`right
    {
      nodes == Nodes(head.tree) && head.Valid() && Files(InOrder(head.tree), keys)
    }

    // SPLAY_INIT
    constructor ()
      ensures Valid() && keys == {} && fresh(head) && nodes == {}
    {
      head := new Head();
      keys, nodes := {}, {};
    }

    // SPLAY_FIND
    method Find(k: Key) returns (found: bool)
      requires Valid()
      modifies head, nodes`left, nodes`right
      ensures Valid() && (found <==> k in keys)
    {
      hide InOrder, Nodes, Rep, Sorted, Files, KeyText;
      ghost var t := head.tree;
      var n := head.Find(KeyText(k));
      FilesFind(InOrder(head.tree), keys, k);
      SameNodes(t, head.tree);
      found := n != null;
    }

    // SPLAY_INSERT of a new message
    method Insert(k: Key)
      requires Valid() && k !in keys
      modifies this, head, nodes`left, nodes`right
      ensures Valid() && keys == old(keys) + {k}
      ensures forall n :: n in nodes ==> n in old(nodes) || fresh(n)
    {
      hide InOrder, Nodes, Rep, Sorted, Files, KeyText;
      ghost var t := head.tree;
      assert allocated(Nodes(t));
      FilesFind(InOrder(t), keys, k);
      NodesInOrder(t);
      var n := new Node(KeyText(k), 0);
      var dup, below, above := head.Insert(n);
      NodesInOrder(head.tree);
      assert dup == null;
      assert forall x :: x in below + [n] + above ==> x == n || x in below + above;
      FilesInsert(below, above, keys, n, k);
      keys, nodes := keys + {k}, Nodes(head.tree);
    }

    // SPLAY_REMOVE
    method Remove(k: Key)
      requires Valid() && k in keys
      modifies this, head, nodes`left, nodes`right
      ensures Valid() && keys == old(keys) - {k} && nodes <= old(nodes)
    {
      hide InOrder, Nodes, Rep, Sorted, Files, KeyText;
      ghost var t := head.tree;
      assert Sorted(InOrder(t));
      FilesFind(InOrder(t), keys, k);
      NodesInOrder(t);
      var gone, below, above := head.Remove(KeyText(k));
      NodesInOrder(head.tree);
      assert gone != null;
      assert forall x :: x in below + above ==> x in below + [gone] + above;
      FilesRemove(below, above, keys, gone, k);
      keys, nodes := keys - {k}, Nodes(head.tree);
    }
  }
}
