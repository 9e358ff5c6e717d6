/** usr.sbin/smtpd/dict.c: string-keyed maps on the splay tree. Every operation reshapes
    the tree; what it means is said about the finite map the nodes hold. */
module Dict {
  import opened Common
  import opened Keys
  import opened Splay

  // The map held by a sequence of nodes.
  ghost function MapOf(s: seq<Node>): map<Text, nat>
    reads s`data
  {
    if s == [] then map[] else MapOf(s[..|s| - 1])[s[|s| - 1].key := s[|s| - 1].data]
  }

  // A sorted sequence of nodes is a map: one entry per node.
  lemma {:induction false} MapOfSorted(s: seq<Node>)
    requires Sorted(s)
    ensures |MapOf(s)| == |s|
    ensures forall n :: n in s ==> n.key in MapOf(s) && MapOf(s)[n.key] == n.data
    ensures forall k :: k in MapOf(s) ==> exists n :: n in s && n.key == k
  {
    hide MapOf, Sorted;
    OneEach(s);
  }

  ghost predicate OneEntryEach(s: seq<Node>, m: map<Text, nat>)
    reads s`data
  {
    |m| == |s| && (forall n :: n in s ==> n.key in m && m[n.key] == n.data) && forall k :: k in m ==> exists n :: n in s && n.key == k
  }

  lemma {:induction false} OneEach(s: seq<Node>)
    requires Sorted(s)
    ensures OneEntryEach(s, MapOf(s))
  {
    if s != [] {
      hide MapOf, Sorted, Less, OneEntryEach;
      var t, n := s[..|s| - 1], s[|s| - 1];
      assert s == t + [n];
      SortedSplit(t, [n]);
      OneEach(t);
      KeyIsNew(t, n, []);
      assert t + [] == t && t + [n] + [] == s;
      MapOfLast(t, n);
      MapGrows(t, n, MapOf(t));
    }
  }

  lemma {:induction false} MapOfLast(t: seq<Node>, n: Node)
    ensures MapOf(t + [n]) == MapOf(t)[n.key := n.data]
  {
    assert (t + [n])[..|t|] == t;
  }

  lemma {:induction false} MapGrows(t: seq<Node>, n: Node, m: map<Text, nat>)
    requires OneEntryEach(t, m) && forall x :: x in t ==> x.key != n.key
    ensures OneEntryEach(t + [n], m[n.key := n.data])
  {
    var s, m' := t + [n], m[n.key := n.data];
    assert n.key !in m;
    assert n in s && forall x :: x in t ==> x in s;
    forall k | k in m' ensures exists x :: x in s && x.key == k {
      if k != n.key {
        var x :| x in t && x.key == k;
        assert x in s;
      }
    }
  }

  lemma {:induction false} MapInsert(a: seq<Node>, n: Node, b: seq<Node>)
    requires Sorted(a + b) && Sorted(a + [n] + b)
    ensures MapOf(a + [n] + b) == MapOf(a + b)[n.key := n.data]
    ensures n.key !in MapOf(a + b)
  {
    hide MapOf, Sorted, Less;
    var c, d := a + [n] + b, a + b;
    assert n !in d by { KeyIsNew(a, n, b); }
    MapOfSorted(c);
    MapOfSorted(d);
    KeyIsNew(a, n, b);
    var m, m' := MapOf(c), MapOf(d)[n.key := n.data];
    forall k | k in m ensures k in m' && m[k] == m'[k] {
      var x :| x in c && x.key == k;
      assert x == n || x in d;
    }
    forall k | k in m' ensures k in m {
      if k == n.key { assert n in c; } else {
        var x :| x in d && x.key == k;
        assert x in c;
      }
    }
    assert m == m';
  }

  lemma {:induction false} KeyIsNew(a: seq<Node>, n: Node, b: seq<Node>)
    requires Sorted(a + [n] + b)
    ensures forall x :: x in a + b ==> x.key != n.key
  {
    SortedSplit(a + [n], b);
    SortedSplit(a, [n]);
    assert n in [n] && n in a + [n];
    forall x | x in a + b ensures x.key != n.key {
      if x in a { CmpTotal(x.key, n.key); } else { CmpTotal(n.key, x.key); }
    }
  }

  // Two sorted sequences with the same keys and data hold the same map.
  lemma {:induction false} MapUpdate(s: seq<Node>, n: Node, m: map<Text, nat>)
    requires Sorted(s) && n in s
    requires m.Keys == MapOf(s).Keys
    requires forall x :: x in s && x != n ==> x.key in m && m[x.key] == x.data
    ensures MapOf(s) == m[n.key := n.data]
  {
    MapOfSorted(s);
  }

  lemma {:induction false} SameKeyIsSameNode(s: seq<Node>, m: Node, n: Node)
    requires Sorted(s) && m in s && n in s && m.key == n.key
    ensures m == n
  {
    var i :| 0 <= i < |s| && s[i] == m;
    var j :| 0 <= j < |s| && s[j] == n;
    CmpTotal(m.key, n.key);
  }

  // Removing a node that is in the tree, and what that does to the map.
  method TakeOut(h: Head, n: Node)
    requires h.Valid() && n in InOrder(h.tree)
    modifies h, Nodes(h.tree)`left, Nodes(h.tree)`right
    ensures h.Valid() && Nodes(h.tree) == old(Nodes(h.tree)) - {n}
    ensures |InOrder(h.tree)| == old(|InOrder(h.tree)|) - 1
    ensures old(n.key in MapOf(InOrder(h.tree)) && MapOf(InOrder(h.tree))[n.key] == n.data)
    ensures MapOf(InOrder(h.tree)) == old(MapOf(InOrder(h.tree))) - {n.key}
  {
    hide MapOf, Sorted, InOrder, Nodes, Rep;
    ghost var s, m, ns := InOrder(h.tree), MapOf(InOrder(h.tree)), Nodes(h.tree);
    assert allocated(s);
    NodesInOrder(h.tree);
    MapOfSorted(s);
    var gone, below, above := h.Remove(n.key);
    SameKeyIsSameNode(s, gone, n);
    RemovedNodes(h.tree, s, ns, gone, below, above);
    assert MapOf(s) == m;
    MapInsert(below, gone, above);
  }

  // Inserting a node, which succeeds exactly if its key is new.
  method PutIn(h: Head, n: Node) returns (ok: bool)
    requires h.Valid() && n !in Nodes(h.tree)
    modifies h, Nodes(h.tree)`left, Nodes(h.tree)`right, n`left, n`right
    ensures ok <==> n.key !in old(MapOf(InOrder(h.tree)))
    ensures ok ==> h.Valid() && Nodes(h.tree) == old(Nodes(h.tree)) + {n}
    ensures ok ==> |InOrder(h.tree)| == old(|InOrder(h.tree)|) + 1
    ensures ok ==> MapOf(InOrder(h.tree)) == old(MapOf(InOrder(h.tree)))[n.key := n.data]
  {
    hide MapOf, Sorted, InOrder, Nodes, Rep, Below, Above;
    ghost var s, m, ns := InOrder(h.tree), MapOf(InOrder(h.tree)), Nodes(h.tree);
    assert allocated(s);
    NodesInOrder(h.tree);
    MapOfSorted(s);
    var dup, below, above := h.Insert(n);
    assert MapOf(s) == m;
    ok := dup == null;
    if ok {
      InsertedNodes(h.tree, s, ns, n, below, above);
      MapInsert(below, n, above);
    }
  }

  class Dict {
    const head: Head
    var count: nat

    ghost function Entries(): seq<Node>
      reads this, head
    {
      InOrder(head.tree)
    }

    ghost predicate Valid()
      reads this, head, Nodes(head.tree)`left, Nodes(head.tree)`right
    {
      head.Valid() && count == |Entries()|
    }

    ghost function Contents(): map<Text, nat>
      reads this, head, Entries()`data
    {
      MapOf(Entries())
    }

    constructor ()
      ensures Valid() && fresh(head) && Contents() == map[]
    {
      head := new Head();
      count := 0;
    }

    // count is the size of the map.
    lemma {:induction false} CountIsSize()
      requires Valid()
      ensures |Contents()| == count
    {
      MapOfSorted(Entries());
    }

    method Check(k: Text) returns (found: bool)
      requires Valid()
      modifies head, Nodes(head.tree)`left, Nodes(head.tree)`right
      ensures Valid() && Entries() == old(Entries()) && Contents() == old(Contents())
      ensures found == (k in Contents())
    {
      hide MapOf, Sorted, InOrder, Nodes, Rep;
      assert allocated(Entries());
      var n := head.Find(k);
      MapOfSorted(Entries());
      found := n != null;
    }

    method Get(k: Text) returns (data: nat)
      requires Valid()
      modifies head, Nodes(head.tree)`left, Nodes(head.tree)`right
      ensures Valid() && Entries() == old(Entries()) && Contents() == old(Contents())
      ensures data == if k in Contents() then Contents()[k] else 0
    {
      hide MapOf, Sorted, InOrder, Nodes, Rep;
      assert allocated(Entries());
      var n := head.Find(k);
      MapOfSorted(Entries());
      data := if n == null then 0 else n.data;
    }

    // The old value is returned, NULL if there was none.
    method Set(k: Text, data: nat) returns (prev: nat)
      requires Valid()
      modifies this, head, Nodes(head.tree)
      ensures Valid() && fresh(Nodes(head.tree) - old(Nodes(head.tree)))
      ensures Contents() == old(Contents())[k := data]
      ensures prev == old(if k in Contents() then Contents()[k] else 0)
    {
      hide MapOf, Sorted, InOrder, Nodes, Rep;
      assert allocated(Entries());
      ghost var s, m, ns := Entries(), Contents(), Nodes(head.tree);
      assert allocated(ns);
      MapOfSorted(s);
      NodesInOrder(head.tree);
      var n := head.Find(k);
      SameNodesAs(head.tree, s, ns);
      assert Contents() == m;
      if n == null {
        var e := new Node(k, data);
        assert allocated(s);
        var ok := PutIn(head, e);
        prev := 0;
        count := count + 1;
      } else {
        prev := n.data;
        SetData(n, data, s, m);
      }
    }

    method SetData(n: Node, data: nat, ghost s: seq<Node>, ghost m: map<Text, nat>)
      requires Valid() && s == Entries() && m == MapOf(s) && n in s
      modifies n`data
      ensures Valid() && MapOf(s) == m[n.key := data]
    {
      hide MapOf, Sorted, InOrder, Nodes, Rep;
      MapOfSorted(s);
      forall x | x in s && x != n ensures x.key in m && m[x.key] == x.data && x.key != n.key {
        if x.key == n.key { SameKeyIsSameNode(s, x, n); }
      }
      n.data := data;
      assert head.Valid();
      MapOfSorted(s);
      assert MapOf(s).Keys == m.Keys;
      MapUpdate(s, n, m);
    }

    method Pop(k: Text) returns (data: nat)
      requires Valid()
      modifies this, head, Nodes(head.tree)`left, Nodes(head.tree)`right
      ensures Valid() && Nodes(head.tree) <= old(Nodes(head.tree))
      ensures Contents() == old(Contents()) - {k}
      ensures data == old(if k in Contents() then Contents()[k] else 0)
    {
      hide MapOf, Sorted, InOrder, Nodes, Rep;
      assert allocated(Entries());
      ghost var s, m, ns := Entries(), Contents(), Nodes(head.tree);
      MapOfSorted(s);
      NodesInOrder(head.tree);
      var n := head.Find(k);
      SameNodesAs(head.tree, s, ns);
      if n == null {
        assert Contents() == m;
        return 0;
      }
      data := n.data;
      RemoveEntry(n);
    }

    method RemoveEntry(n: Node)
      requires Valid() && n in Entries()
      modifies this, head, Nodes(head.tree)`left, Nodes(head.tree)`right
      ensures Valid() && Nodes(head.tree) <= old(Nodes(head.tree))
      ensures Contents() == old(Contents()) - {n.key}
    {
      hide MapOf, Sorted, InOrder, Nodes, Rep;
      TakeOut(head, n);
      count := count - 1;
    }

    // The entry at the root goes; which one that is depends on the operations so far.
    method PopRoot() returns (ok: bool, data: nat, ghost k: Text)
      requires Valid()
      modifies this, head, Nodes(head.tree)`left, Nodes(head.tree)`right
      ensures Valid() && Nodes(head.tree) <= old(Nodes(head.tree))
      ensures ok <==> old(Contents()) != map[]
      ensures ok ==> k in old(Contents()) && data == old(Contents())[k] && Contents() == old(Contents()) - {k}
      ensures !ok ==> Contents() == old(Contents())
    {
      hide MapOf, Sorted, InOrder, Nodes, Rep;
      data, k := 0, [];
      MapOfSorted(Entries());
      View(head.tree, head.root);
      RootEntry(head.tree);
      var n := head.root;
      if n == null { return false, data, k; }
      data, k := n.data, n.key;
      RemoveEntry(n);
      ok := true;
    }

    // One step of an iteration: hdl is NULL or the entry last visited, at index i.
    method Iter(hdl: Node?, ghost i: int) returns (curr: Node?)
      requires Valid() && -1 <= i < |Entries()|
      requires if hdl == null then i == -1 else 0 <= i && Entries()[i] == hdl
      modifies head, Nodes(head.tree)`left, Nodes(head.tree)`right
      ensures Valid() && Entries() == old(Entries()) && Contents() == old(Contents())
      ensures Nodes(head.tree) == old(Nodes(head.tree))
      ensures curr == if i + 1 < |Entries()| then Entries()[i + 1] else null
    {
      hide MapOf, Sorted, InOrder, Nodes, Rep;
      assert allocated(Entries());
      ghost var s, ns := Entries(), Nodes(head.tree);
      NodesInOrder(head.tree);
      if hdl == null {
        curr := head.Min();
      } else {
        curr := head.Next(hdl, i);
      }
      SameNodesAs(head.tree, s, ns);
    }

    // A whole iteration visits every key once, in ascending order, although each of
    // its steps splays the tree.
    method IterateAll() returns (ks: seq<Text>)
      requires Valid()
      modifies head, Nodes(head.tree)`left, Nodes(head.tree)`right
      ensures Valid() && Contents() == old(Contents())
      ensures forall i, j :: 0 <= i < j < |ks| ==> Less(ks[i], ks[j])
      ensures forall k :: k in ks <==> k in Contents()
    {
      hide MapOf, InOrder, Nodes, Rep, Less;
      ks := [];
      ghost var s := Entries();
      var hdl := Iter(null, -1);
      while hdl != null
        invariant Valid() && Entries() == s && Contents() == old(Contents())
        invariant Nodes(head.tree) == old(Nodes(head.tree))
        invariant |ks| <= |s| && hdl == (if |ks| < |s| then s[|ks|] else null)
        invariant forall i :: 0 <= i < |ks| ==> ks[i] == s[i].key
        decreases |s| - |ks|
      {
        ks := ks + [hdl.key];
        hdl := Iter(hdl, |ks| - 1);
      }
      VisitedAll(s, ks);
    }

    // The first step of an iteration from a key, or from the start. A missing key is inserted
    // for the time of the step, so that its successor can be found.
    method IterFromStart(kfrom: Option<Text>) returns (curr: Node?, ghost i: nat)
      requires Valid()
      modifies head, Nodes(head.tree)`left, Nodes(head.tree)`right
      ensures Valid() && Entries() == old(Entries()) && Contents() == old(Contents())
      ensures Nodes(head.tree) == old(Nodes(head.tree))
      ensures i <= |Entries()| && curr == if i < |Entries()| then Entries()[i] else null
      ensures forall j :: 0 <= j < |Entries()| ==> (BelowStart(Entries()[j].key, kfrom) <==> j < i)
    {
      hide MapOf, Sorted, InOrder, Nodes, Rep, Less, Below, Above;
      assert allocated(Entries());
      ghost var s, ns := Entries(), Nodes(head.tree);
      NodesInOrder(head.tree);
      assert allocated(ns);
      if kfrom.None? {
        curr := head.Min();
        SameNodesAs(head.tree, s, ns);
        return curr, 0;
      }
      curr := head.Find(kfrom.value);
      SameNodesAs(head.tree, s, ns);
      if curr != null {
        i := FoundIndex(s, curr);
      } else {
        curr, i := SeekMissing(kfrom.value);
      }
    }

    method SeekMissing(kfrom: Text) returns (curr: Node?, ghost i: nat)
      requires Valid() && forall n :: n in Entries() ==> n.key != kfrom
      modifies head, Nodes(head.tree)`left, Nodes(head.tree)`right
      ensures Valid() && Entries() == old(Entries()) && Contents() == old(Contents())
      ensures Nodes(head.tree) == old(Nodes(head.tree))
      ensures i <= |Entries()| && curr == if i < |Entries()| then Entries()[i] else null
      ensures forall j :: 0 <= j < |Entries()| ==> (Less(Entries()[j].key, kfrom) <==> j < i)
    {
      hide MapOf, Sorted, InOrder, Nodes, Rep, Less, Below, Above;
      ghost var s, ns := Entries(), Nodes(head.tree);
      assert allocated(s) && allocated(ns);
      NodesInOrder(head.tree);
      var key := new Node(kfrom, 0);
      var dup, below, above := head.Insert(key);
      ghost var s' := InOrder(head.tree);
      i := |below|;
      InsertedNodes(head.tree, s, ns, key, below, above);
      assert s'[i] == key;
      curr := head.Next(key, i);
      SameNodesAs(head.tree, s', ns + {key});
      var gone, below', above' := head.Remove(kfrom);
      SamePlace(s', below, key, above, below', gone, above');
      SameNodesAs(head.tree, s, ns);
      SplitIndex(s, below, above, kfrom);
    }

    // A whole iteration from kfrom visits exactly the keys that are not below it.
    method IterateFrom(kfrom: Option<Text>) returns (ks: seq<Text>)
      requires Valid()
      modifies head, Nodes(head.tree)`left, Nodes(head.tree)`right
      ensures Valid() && Contents() == old(Contents())
      ensures forall i, j :: 0 <= i < j < |ks| ==> Less(ks[i], ks[j])
      ensures forall k :: k in ks <==> k in Contents() && !BelowStart(k, kfrom)
    {
      hide MapOf, InOrder, Nodes, Rep, Less, Sorted, BelowStart;
      ks := [];
      ghost var s := Entries();
      var hdl, i := IterFromStart(kfrom);
      ghost var i0 := i;
      while hdl != null
        invariant Valid() && Entries() == s && Contents() == old(Contents())
        invariant Nodes(head.tree) == old(Nodes(head.tree))
        invariant i0 + |ks| <= |s| && hdl == (if i0 + |ks| < |s| then s[i0 + |ks|] else null)
        invariant forall j :: 0 <= j < |ks| ==> ks[j] == s[i0 + j].key
        decreases |s| - |ks|
      {
        ks := ks + [hdl.key];
        hdl := Iter(hdl, i0 + |ks| - 1);
      }
      VisitedFrom(s, ks, i0, kfrom);
    }

    // dict_merge: every entry of src moves here; a key present in both is fatal.
    method Merge(src: Dict) returns (ok: bool)
      requires Valid() && src.Valid() && src != this && src.head != head
      requires Nodes(head.tree) !! Nodes(src.head.tree)
      modifies this, head, src, src.head
      modifies Nodes(head.tree)`left, Nodes(head.tree)`right
      modifies Nodes(src.head.tree)`left, Nodes(src.head.tree)`right
      ensures ok <==> old(Contents().Keys !! src.Contents().Keys)
      ensures ok ==> Valid() && Contents() == old(Contents() + src.Contents())
      ensures ok ==> src.Valid() && src.Contents() == map[]
    {
      hide MapOf, Sorted, InOrder, Nodes, Rep, SameUnion;
      ghost var m1, m2 := Contents(), src.Contents();
      ghost var ns1, ns2 := Nodes(head.tree), Nodes(src.head.tree);
      UnionSame(m1, m2);
      while src.head.root != null
        invariant head.Valid() && src.head.Valid() && unchanged(this) && unchanged(src)
        invariant Nodes(head.tree) !! Nodes(src.head.tree)
        invariant Nodes(head.tree) <= ns1 + ns2 && Nodes(src.head.tree) <= ns2
        invariant |InOrder(head.tree)| + |InOrder(src.head.tree)| == count + src.count
        invariant SameUnion(Contents(), src.Contents(), m1, m2)
        decreases |InOrder(src.head.tree)|
      {
        var entry := src.head.root;
        View(src.head.tree, src.head.root);
        RootEntry(src.head.tree);
        UnionStep(Contents(), src.Contents(), m1, m2, entry.key);
        var moved := MoveEntry(src, entry);
        if !moved { return false; }
      }
      View(src.head.tree, src.head.root);
      RootEntry(src.head.tree);
      MapOfSorted(InOrder(src.head.tree));
      UnionDone(Contents(), src.Contents(), m1, m2);
      count := count + src.count;
      src.count := 0;
      ok := true;
    }

    // One round of dict_merge's loop.
    method MoveEntry(src: Dict, entry: Node) returns (moved: bool)
      requires head.Valid() && src.head.Valid() && src != this && src.head != head
      requires Nodes(head.tree) !! Nodes(src.head.tree) && entry in InOrder(src.head.tree)
      modifies head, src.head
      modifies Nodes(head.tree)`left, Nodes(head.tree)`right
      modifies Nodes(src.head.tree)`left, Nodes(src.head.tree)`right
      ensures moved <==> entry.key !in old(Contents())
      ensures entry.key in old(src.Contents()) && entry in old(Nodes(src.head.tree))
      ensures moved ==> head.Valid() && src.head.Valid()
      ensures moved ==> Nodes(head.tree) == old(Nodes(head.tree)) + {entry}
      ensures moved ==> Nodes(src.head.tree) == old(Nodes(src.head.tree)) - {entry}
      ensures moved ==> |InOrder(head.tree)| == old(|InOrder(head.tree)|) + 1
      ensures moved ==> |InOrder(src.head.tree)| == old(|InOrder(src.head.tree)|) - 1
      ensures moved ==> Contents() == old(Contents()[entry.key := src.Contents()[entry.key]])
      ensures moved ==> src.Contents() == old(src.Contents()) - {entry.key}
    {
      hide MapOf, Sorted, InOrder, Nodes, Rep;
      ghost var s1, ns1 := Entries(), Nodes(head.tree);
      assert allocated(s1) && allocated(ns1);
      NodesInOrder(src.head.tree);
      TakeOut(src.head, entry);
      ghost var s2, ns2 := src.Entries(), Nodes(src.head.tree);
      assert allocated(s2) && allocated(ns2);
      moved := PutIn(head, entry);
    }
  }

  // What dict_merge's loop keeps: whether the maps are disjoint and, if so, their union.
  ghost predicate SameUnion(a: map<Text, nat>, b: map<Text, nat>, m1: map<Text, nat>, m2: map<Text, nat>) {
    (a.Keys !! b.Keys <==> m1.Keys !! m2.Keys) && (a.Keys !! b.Keys ==> a + b == m1 + m2)
  }

  lemma {:induction false} UnionSame(a: map<Text, nat>, b: map<Text, nat>)
    ensures SameUnion(a, b, a, b)
  {
  }

  lemma {:induction false} UnionDone(a: map<Text, nat>, b: map<Text, nat>, m1: map<Text, nat>, m2: map<Text, nat>)
    requires SameUnion(a, b, m1, m2) && |b| == 0
    ensures m1.Keys !! m2.Keys && a == m1 + m2 && b == map[]
  {
    assert b.Keys == {};
    assert a + b == a;
  }

  lemma {:induction false} UnionStep(a: map<Text, nat>, b: map<Text, nat>, m1: map<Text, nat>, m2: map<Text, nat>, k: Text)
    requires SameUnion(a, b, m1, m2)
    ensures k in a && k in b ==> !(m1.Keys !! m2.Keys)
    ensures k !in a && k in b ==> SameUnion(a[k := b[k]], b - {k}, m1, m2)
  {
    if k !in a && k in b {
      var a', b' := a[k := b[k]], b - {k};
      assert a'.Keys == a.Keys + {k} && b'.Keys == b.Keys - {k};
      assert a' + b' == a + b;
    }
  }

  // A key before the one an iteration starts from.
  predicate BelowStart(k: Text, kfrom: Option<Text>) {
    kfrom.Some? && Less(k, kfrom.value)
  }

  lemma {:induction false} VisitedFrom(s: seq<Node>, ks: seq<Text>, i: nat, kfrom: Option<Text>)
    requires Sorted(s) && i + |ks| == |s| && forall j :: 0 <= j < |ks| ==> ks[j] == s[i + j].key
    requires forall j :: 0 <= j < |s| ==> (BelowStart(s[j].key, kfrom) <==> j < i)
    ensures forall i, j :: 0 <= i < j < |ks| ==> Less(ks[i], ks[j])
    ensures forall k :: k in ks <==> k in MapOf(s) && !BelowStart(k, kfrom)
  {
    hide MapOf, Less, BelowStart;
    MapOfSorted(s);
    forall k | k in ks ensures k in MapOf(s) && !BelowStart(k, kfrom) {
      var j :| 0 <= j < |ks| && ks[j] == k;
      assert s[i + j] in s;
    }
    forall k | k in MapOf(s) && !BelowStart(k, kfrom) ensures k in ks {
      var n :| n in s && n.key == k;
      var j :| 0 <= j < |s| && s[j] == n;
      assert ks[j - i] == k;
    }
  }

  lemma {:induction false} RootEntry(t: Tree)
    ensures t.Leaf? <==> InOrder(t) == []
    ensures t.Br? ==> t.node in InOrder(t)
  {
  }

  lemma {:induction false} VisitedAll(s: seq<Node>, ks: seq<Text>)
    requires Sorted(s) && |ks| == |s| && forall i :: 0 <= i < |ks| ==> ks[i] == s[i].key
    ensures forall i, j :: 0 <= i < j < |ks| ==> Less(ks[i], ks[j])
    ensures forall k :: k in ks <==> k in MapOf(s)
  {
    hide MapOf, Less;
    MapOfSorted(s);
    forall k | k in ks ensures k in MapOf(s) {
      var i :| 0 <= i < |ks| && ks[i] == k;
      assert s[i] in s;
    }
    forall k | k in MapOf(s) ensures k in ks {
      var n :| n in s && n.key == k;
      var i :| 0 <= i < |s| && s[i] == n;
      assert ks[i] == k;
    }
  }

  lemma {:induction false} FoundIndex(s: seq<Node>, n: Node) returns (i: nat)
    requires Sorted(s) && n in s
    ensures i < |s| && s[i] == n
    ensures forall j :: 0 <= j < |s| ==> (Less(s[j].key, n.key) <==> j < i)
  {
    i :| 0 <= i < |s| && s[i] == n;
    forall j | 0 <= j < |s| ensures Less(s[j].key, n.key) <==> j < i {
      CmpTotal(s[j].key, n.key);
    }
  }

  // In a sorted sequence a key has one place, so both descriptions of it agree.
  lemma {:induction false} SamePlace(s: seq<Node>, a: seq<Node>, n: Node, b: seq<Node>,
                                     c: seq<Node>, m: Node, d: seq<Node>)
    requires Sorted(s) && s == a + [n] + b && s == c + [m] + d && m.key == n.key
    ensures a == c && m == n && b == d
  {
    assert s[|a|] == n && s[|c|] == m;
    CmpTotal(n.key, m.key);
    assert |a| == |c|;
    assert a == s[..|a|] && c == s[..|c|];
    assert b == s[|a| + 1..] && d == s[|c| + 1..];
  }

  lemma {:induction false} SplitIndex(s: seq<Node>, a: seq<Node>, b: seq<Node>, k: Text)
    requires s == a + b && Below(a, k) && Above(b, k)
    ensures forall j :: 0 <= j < |s| ==> (Less(s[j].key, k) <==> j < |a|)
  {
    forall j | 0 <= j < |s| ensures Less(s[j].key, k) <==> j < |a| {
      if j < |a| { assert s[j] in a; } else {
        assert s[j] == b[j - |a|] && s[j] in b;
        CmpTotal(k, s[j].key);
      }
    }
  }

  // Trees over the same sequence have the same nodes.
  lemma {:induction false} SameNodesAs(t: Tree, s: seq<Node>, ns: set<Node>)
    requires InOrder(t) == s && (forall n :: n in s ==> n in ns) && (forall n :: n in ns ==> n in s)
    ensures Nodes(t) == ns
  {
    NodesInOrder(t);
  }

  lemma {:induction false} InsertedNodes(t: Tree, s: seq<Node>, ns: set<Node>, e: Node, below: seq<Node>, above: seq<Node>)
    requires s == below + above && InOrder(t) == below + [e] + above && Sorted(InOrder(t))
    requires (forall n :: n in s ==> n in ns) && (forall n :: n in ns ==> n in s)
    ensures Nodes(t) == ns + {e} && Sorted(s)
  {
    NodesInOrder(t);
    SortedWithout(below, e, above);
    assert forall n :: n in InOrder(t) <==> n in s || n == e;
  }

  lemma {:induction false} RemovedNodes(t: Tree, s: seq<Node>, ns: set<Node>, e: Node, below: seq<Node>, above: seq<Node>)
    requires s == below + [e] + above && InOrder(t) == below + above && Sorted(s)
    requires (forall n :: n in s ==> n in ns) && (forall n :: n in ns ==> n in s)
    ensures Nodes(t) == ns - {e}
  {
    NodesInOrder(t);
    assert e !in InOrder(t) by { KeyIsNew(below, e, above); }
    assert forall n :: n in s <==> n in InOrder(t) || n == e;
  }
}
