/** The order dict.c keeps its entries in: strcmp on NUL-free strings. */
module Keys {

  // The characters of a string.
  type Text = seq<nat>

  // The sign of strcmp(a, b).
  function StrCmp(a: Text, b: Text): (r: int)
    ensures -1 <= r <= 1
  {
    if a == [] then (if b == [] then 0 else -1)
    else if b == [] then 1
    else if a[0] < b[0] then -1
    else if b[0] < a[0] then 1
    else StrCmp(a[1..], b[1..])
  }

  predicate Less(a: Text, b: Text) {
    StrCmp(a, b) < 0
  }

  lemma {:induction false} CmpEqual(a: Text, b: Text)
    ensures StrCmp(a, b) == 0 <==> a == b
  {
    if a != [] && b != [] && a[0] == b[0] {
      CmpEqual(a[1..], b[1..]);
      assert a == [a[0]] + a[1..] && b == [b[0]] + b[1..];
    }
  }

  lemma {:induction false} CmpSwap(a: Text, b: Text)
    ensures StrCmp(a, b) == -StrCmp(b, a)
  {
    if a != [] && b != [] && a[0] == b[0] { CmpSwap(a[1..], b[1..]); }
  }

  lemma {:induction false} LessTrans(a: Text, b: Text, c: Text)
    requires Less(a, b) && Less(b, c)
    ensures Less(a, c)
  {
    if a != [] && a[0] == b[0] && b[0] == c[0] { LessTrans(a[1..], b[1..], c[1..]); }
  }

  // strcmp is a total order whose equality is string equality.
  lemma {:induction false} CmpTotal(a: Text, b: Text)
    ensures Less(a, b) || a == b || Less(b, a)
    ensures Less(a, b) ==> a != b && !Less(b, a)
    ensures StrCmp(a, b) == 0 <==> a == b
    ensures StrCmp(a, b) > 0 <==> Less(b, a)
  {
    CmpEqual(a, b);
    CmpSwap(a, b);
  }

  // The first difference decides, and a proper beginning comes first.
  lemma {:induction false} CmpMeaning(a: Text, b: Text)
    ensures Less(a, b) <==> exists k: nat :: k <= |a| && k < |b| && a[..k] == b[..k] && (k == |a| || a[k] < b[k])
  {
    if a == [] {
      assert b != [] ==> a[..0] == b[..0];
    } else if b != [] {
      CmpMeaning(a[1..], b[1..]);
      if a[0] < b[0] {
        assert a[..0] == b[..0];
      }
      if a[0] == b[0] && Less(a[1..], b[1..]) {
        var k: nat :| k <= |a| - 1 && k < |b| - 1 && a[1..][..k] == b[1..][..k] && (k == |a| - 1 || a[1..][k] < b[1..][k]);
        assert a[..k + 1] == [a[0]] + a[1..][..k] && b[..k + 1] == [b[0]] + b[1..][..k];
      }
      if k: nat :| k <= |a| && k < |b| && a[..k] == b[..k] && (k == |a| || a[k] < b[k]) {
        if k > 0 {
          assert a[0] == a[..k][0] == b[..k][0] == b[0];
          assert a[1..][..k - 1] == a[..k][1..] == b[..k][1..] == b[1..][..k - 1];
        }
      }
    }
  }

  /*** Ascending sequences of keys ***/

  ghost predicate Ascending(ks: seq<Text>) {
    forall i, j :: 0 <= i < j < |ks| ==> Less(ks[i], ks[j])
  }

  ghost predicate AllBelow(ks: seq<Text>, k: Text) {
    forall i :: 0 <= i < |ks| ==> Less(ks[i], k)
  }

  ghost predicate AllAbove(ks: seq<Text>, k: Text) {
    forall i :: 0 <= i < |ks| ==> Less(k, ks[i])
  }

  lemma {:induction false} AscendingSplit(a: seq<Text>, k: Text, b: seq<Text>)
    requires Ascending(a + [k] + b)
    ensures Ascending(a) && Ascending(b) && Ascending(a + b) && AllBelow(a, k) && AllAbove(b, k)
  {
    var c, d := a + [k] + b, a + b;
    assert forall i :: 0 <= i < |a| ==> c[i] == a[i];
    assert forall i :: 0 <= i < |b| ==> c[|a| + 1 + i] == b[i];
    assert c[|a|] == k;
    forall i, j | 0 <= i < j < |d| ensures Less(d[i], d[j]) {
      var i', j' := if i < |a| then i else i + 1, if j < |a| then j else j + 1;
      assert d[i] == c[i'] && d[j] == c[j'];
    }
  }

  lemma {:induction false} AscendingInsert(a: seq<Text>, k: Text, b: seq<Text>)
    requires Ascending(a + b) && AllBelow(a, k) && AllAbove(b, k)
    ensures Ascending(a + [k] + b)
  {
    var c, d := a + [k] + b, a + b;
    forall i, j | 0 <= i < j < |c| ensures Less(c[i], c[j]) {
      if i != |a| && j != |a| {
        var i', j' := if i < |a| then i else i - 1, if j < |a| then j else j - 1;
        assert c[i] == d[i'] && c[j] == d[j'];
      } else if i == |a| {
        assert c[j] == b[j - |a| - 1];
      } else {
        assert c[i] == a[i];
      }
    }
  }

  lemma {:induction false} BelowTrans(ks: seq<Text>, j: Text, k: Text)
    requires AllBelow(ks, j) && Less(j, k)
    ensures AllBelow(ks, k)
  {
    forall i | 0 <= i < |ks| ensures Less(ks[i], k) { LessTrans(ks[i], j, k); }
  }

  lemma {:induction false} AboveTrans(ks: seq<Text>, j: Text, k: Text)
    requires AllAbove(ks, j) && Less(k, j)
    ensures AllAbove(ks, k)
  {
    forall i | 0 <= i < |ks| ensures Less(k, ks[i]) { LessTrans(k, j, ks[i]); }
  }
}
