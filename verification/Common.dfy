// Types shared by the modules.
module Common {

  datatype Option<+T> = None | Some(value: T)

  type byte = x: int | 0 <= x < 256

  function Min(a: int, b: int): int {
    if a < b then a else b
  }

  function Max(a: int, b: int): int {
    if a < b then b else a
  }

  function Pow2(n: nat): (r: nat)
    ensures r > 0
  {
    if n == 0 then 1 else 2 * Pow2(n - 1)
  }

  lemma {:induction false} SliceJoin<T>(s: seq<T>, a: nat, b: nat, c: nat)
    requires a <= b <= c <= |s|
    ensures s[a..b] + s[b..c] == s[a..c]
  {
  }

  // The first occurrence of b, or the length of s.
  function IndexOf(s: seq<byte>, b: byte): (i: nat)
    ensures i <= |s| && b !in s[..i] && (i < |s| ==> s[i] == b)
  {
    if s == [] || s[0] == b then 0
    else
      var i := IndexOf(s[1..], b);
      assert s[..i + 1] == [s[0]] + s[1..][..i];
      i + 1
  }

  lemma {:induction false} FirstIndex(l: seq<byte>, b: byte, rest: seq<byte>)
    requires b !in l
    ensures IndexOf(l + [b] + rest, b) == |l|
  {
    if l != [] {
      FirstIndex(l[1..], b, rest);
      assert (l + [b] + rest)[1..] == l[1..] + [b] + rest;
    }
  }

  lemma {:induction false} NoIndex(s: seq<byte>, b: byte)
    requires b !in s
    ensures IndexOf(s, b) == |s|
  {
    if s != [] { NoIndex(s[1..], b); }
  }

  lemma {:induction false} Assoc<T>(a: seq<T>, b: seq<T>, c: seq<T>)
    ensures (a + b) + c == a + (b + c)
  {
  }

  /*** Concatenation of many pieces ***/

  function Flatten<T>(ss: seq<seq<T>>): seq<T> {
    if ss == [] then [] else ss[0] + Flatten(ss[1..])
  }

  lemma {:induction false} FlattenNone<T>()
    ensures Flatten<T>([]) == []
  {
  }

  lemma {:induction false} FlattenOne<T>(s: seq<T>)
    ensures Flatten([s]) == s
  {
    assert [s][1..] == [] && s + [] == s;
  }

  lemma {:induction false} FlattenConcat<T>(a: seq<seq<T>>, b: seq<seq<T>>)
    ensures Flatten(a + b) == Flatten(a) + Flatten(b)
  {
    if a == [] {
      assert a + b == b;
    } else {
      FlattenConcat(a[1..], b);
      assert (a + b)[1..] == a[1..] + b && (a + b)[0] == a[0];
      Assoc(a[0], Flatten(a[1..]), Flatten(b));
    }
  }

  lemma {:induction false} FlattenAppend<T>(ss: seq<seq<T>>, i: nat)
    requires i < |ss|
    ensures Flatten(ss[..i + 1]) == Flatten(ss[..i]) + ss[i]
  {
    hide Flatten;
    assert ss[..i + 1] == ss[..i] + [ss[i]];
    FlattenConcat(ss[..i], [ss[i]]);
    FlattenOne(ss[i]);
  }

  lemma {:induction false} FlattenStep<T>(h: seq<T>, ss: seq<seq<T>>, i: nat)
    requires i < |ss|
    ensures (h + Flatten(ss[..i])) + ss[i] == h + Flatten(ss[..i + 1])
  {
    FlattenAppend(ss, i);
    Assoc(h, Flatten(ss[..i]), ss[i]);
  }

  lemma {:induction false} FlattenPrefix<T>(ss: seq<seq<T>>, i: nat)
    requires i <= |ss|
    ensures |Flatten(ss[..i])| <= |Flatten(ss)|
  {
    hide Flatten;
    assert ss == ss[..i] + ss[i..];
    FlattenConcat(ss[..i], ss[i..]);
  }
}
