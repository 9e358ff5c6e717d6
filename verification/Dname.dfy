/** Domain names in the resolver (openbsd-compat/libasr/asr_utils.c and asr.c): their text
    form, their wire form and the compressed form of section 4.1.4 of RFC 1035. */
module Dname {
  import opened Common

  const DOT: byte := 46

  type Label = seq<byte>

  // dname_check_label
  predicate ValidLabel(l: Label) {
    1 <= |l| <= 63
  }

  ghost predicate ValidName(ls: seq<Label>) {
    forall i :: 0 <= i < |ls| ==> ValidLabel(ls[i])
  }

  // A label that can be written in a C string of dotted labels.
  predicate TextLabel(l: Label) {
    ValidLabel(l) && DOT !in l && 0 !in l
  }

  ghost predicate TextName(ls: seq<Label>) {
    forall i :: 0 <= i < |ls| ==> TextLabel(ls[i])
  }

  /*** Wire and text forms ***/

  function LabelBytes(l: Label): (w: seq<byte>)
    requires ValidLabel(l)
    ensures |w| == |l| + 1
  {
    var n: byte := |l|;
    [n] + l
  }

  function WireBody(ls: seq<Label>): (w: seq<byte>)
    requires forall i :: 0 <= i < |ls| ==> ValidLabel(ls[i])
  {
    if ls == [] then [] else LabelBytes(ls[0]) + WireBody(ls[1..])
  }

  function Wire(ls: seq<Label>): (w: seq<byte>)
    requires forall i :: 0 <= i < |ls| ==> ValidLabel(ls[i])
    ensures |w| > 0
  {
    WireBody(ls) + [0]
  }

  function Dotted(ls: seq<Label>): seq<byte> {
    if ls == [] then [] else ls[0] + [DOT] + Dotted(ls[1..])
  }

  function Text(ls: seq<Label>): seq<byte> {
    if ls == [] then [DOT] else Dotted(ls)
  }

  lemma {:induction false} WireAppend(ls: seq<Label>, l: Label)
    requires ValidName(ls) && ValidLabel(l)
    ensures WireBody(ls + [l]) == WireBody(ls) + LabelBytes(l)
  {
    hide LabelBytes;
    if ls == [] {
      assert ls + [l] == [l] && [l][1..] == [];
      assert LabelBytes(l) + [] == LabelBytes(l);
    } else {
      WireAppend(ls[1..], l);
      assert (ls + [l])[1..] == ls[1..] + [l];
      assert LabelBytes(ls[0]) + (WireBody(ls[1..]) + LabelBytes(l)) == (LabelBytes(ls[0]) + WireBody(ls[1..])) + LabelBytes(l);
    }
  }

  lemma {:induction false} DottedAppend(ls: seq<Label>, l: Label)
    ensures Dotted(ls + [l]) == Dotted(ls) + (l + [DOT])
  {
    if ls == [] {
      assert ls + [l] == [l] && [l][1..] == [];
      assert l + [DOT] + [] == l + [DOT];
    } else {
      DottedAppend(ls[1..], l);
      assert (ls + [l])[1..] == ls[1..] + [l];
      Assoc(ls[0] + [DOT], Dotted(ls[1..]), l + [DOT]);
    }
  }

  // The wire form is one byte longer than the text of a non-root name.
  lemma {:induction false} WireLength(ls: seq<Label>)
    requires ValidName(ls)
    ensures |WireBody(ls)| == |Dotted(ls)|
    ensures ls != [] ==> |Wire(ls)| == |Text(ls)| + 1
  {
    if ls != [] {
      WireLength(ls[1..]);
    }
  }

  /*** From text to wire ***/

  function ParseDotted(s: seq<byte>): (r: Option<seq<Label>>)
    ensures r.Some? ==> ValidName(r.value)
  {
    if s == [] then Some([])
    else
      var d := IndexOf(s, DOT);
      if d == |s| || d == 0 || d > 63 then None
      else
        match ParseDotted(s[d + 1..])
        case None => None
        case Some(r) => Some([s[..d]] + r)
  }

  function FqdnLabels(s: seq<byte>): (r: Option<seq<Label>>)
    ensures r.Some? ==> ValidName(r.value)
  {
    if s != [] && s[0] == DOT then (if |s| == 1 then Some([]) else None)
    else ParseDotted(s)
  }

  lemma {:induction false} ParseCons(l: Label, rest: seq<byte>)
    requires TextLabel(l)
    ensures ParseDotted(l + [DOT] + rest) ==
              match ParseDotted(rest) { case None => None case Some(r) => Some([l] + r) }
  {
    hide IndexOf;
    var s := l + [DOT] + rest;
    FirstIndex(l, DOT, rest);
    assert s[..|l|] == l && s[|l| + 1..] == rest;
  }

  lemma {:induction false} ParseOfDotted(ls: seq<Label>)
    requires TextName(ls)
    ensures ParseDotted(Dotted(ls)) == Some(ls)
  {
    if ls != [] {
      ParseOfDotted(ls[1..]);
      hide ParseDotted;
      ParseCons(ls[0], Dotted(ls[1..]));
      assert [ls[0]] + ls[1..] == ls;
    }
  }

  lemma {:induction false} DottedOfParse(s: seq<byte>)
    requires 0 !in s && ParseDotted(s).Some?
    ensures TextName(ParseDotted(s).value) && Dotted(ParseDotted(s).value) == s
  {
    if s != [] {
      var d := IndexOf(s, DOT);
      DottedOfParse(s[d + 1..]);
      hide IndexOf, Dotted;
      var r := ParseDotted(s[d + 1..]).value;
      assert ParseDotted(s).value == [s[..d]] + r;
      assert s == s[..d] + [DOT] + s[d + 1..];
      assert Dotted([s[..d]] + r) == s[..d] + [DOT] + Dotted(r) by { DottedCons(s[..d], r); }
    }
  }

  lemma {:induction false} DottedCons(l: Label, r: seq<Label>)
    ensures Dotted([l] + r) == l + [DOT] + Dotted(r)
  {
    assert ([l] + r)[1..] == r;
  }

  // The accepted names are exactly the texts of sequences of labels.
  lemma {:induction false} FqdnIsText(s: seq<byte>, ls: seq<Label>)
    requires 0 !in s && s != []
    ensures FqdnLabels(s) == Some(ls) <==> TextName(ls) && s == Text(ls)
  {
    if FqdnLabels(s) == Some(ls) && s[0] != DOT {
      DottedOfParse(s);
    }
    if TextName(ls) && s == Text(ls) && ls != [] {
      ParseOfDotted(ls);
      assert s[0] == ls[0][0];
    }
  }

  /*** Compressed names ***/

  function PointerAt(data: seq<byte>, off: nat): nat
    requires off + 1 < |data| && data[off] >= 0xc0
  {
    256 * (data[off] as int - 0xc0) + data[off + 1] as int
  }

  // dname_expand: the labels read at off, where start is the beginning of the current run.
  function Expand(data: seq<byte>, off: nat, start: nat): (r: Option<seq<Label>>)
    requires start <= off < |data|
    ensures r.Some? ==> ValidName(r.value)
    decreases start, |data| - off
  {
    var n := data[off];
    if n == 0 then Some([])
    else if n >= 0xc0 then
      if off + 1 >= |data| then None
      else
        var ptr := PointerAt(data, off);
        if ptr >= start then None else Expand(data, ptr, ptr)
    else if off + n + 1 >= |data| || n > 63 then None
    else
      match Expand(data, off + n + 1, start)
      case None => None
      case Some(r) => Some([data[off + 1..off + 1 + n]] + r)
  }

  // The offset that dname_expand reports: the furthest end of all runs it went through.
  function FinalEnd(data: seq<byte>, off: nat, start: nat): (e: nat)
    requires start <= off < |data|
    decreases start, |data| - off
  {
    var n := data[off];
    if n == 0 then off + 1
    else if n >= 0xc0 then
      if off + 1 >= |data| || PointerAt(data, off) >= start then off + 2
      else Max(off + 2, FinalEnd(data, PointerAt(data, off), PointerAt(data, off)))
    else if off + n + 1 >= |data| then off + n + 1
    else FinalEnd(data, off + n + 1, start)
  }

  // Where the bytes of the name itself end: after its zero byte or its pointer.
  function OwnEnd(data: seq<byte>, off: nat): (e: nat)
    decreases |data| - off
  {
    if off >= |data| then off
    else
      var n := data[off];
      if n == 0 then off + 1
      else if n >= 0xc0 then off + 2
      else OwnEnd(data, off + n + 1)
  }

  lemma {:induction false} EndBounds(data: seq<byte>, off: nat, start: nat)
    requires start <= off < |data| && Expand(data, off, start).Some?
    ensures off < OwnEnd(data, off) <= FinalEnd(data, off, start) <= |data|
    decreases start, |data| - off
  {
    var n := data[off];
    if n >= 0xc0 {
      EndBounds(data, PointerAt(data, off), PointerAt(data, off));
    } else if n != 0 {
      EndBounds(data, off + n + 1, start);
    }
  }

  // The name's pointer, if its own bytes end with one.
  function Target(data: seq<byte>, off: nat): (p: Option<nat>)
    decreases |data| - off
  {
    if off >= |data| then None
    else
      var n := data[off];
      if n == 0 then None
      else if n >= 0xc0 then (if off + 1 >= |data| then None else Some(PointerAt(data, off)))
      else Target(data, off + n + 1)
  }

  // The run that starts at p, and all runs that pointers lead to from there, end at or
  // before e.
  ghost predicate WithinEnd(data: seq<byte>, p: nat, e: nat)
    decreases p
  {
    OwnEnd(data, p) <= e && (Target(data, p).Some? && Target(data, p).value < p ==> WithinEnd(data, Target(data, p).value, e))
  }

  lemma {:induction false} EndWithin(data: seq<byte>, off: nat, start: nat, e: nat)
    requires start <= off < |data| && Expand(data, off, start).Some?
    ensures Target(data, off).Some? ==> Target(data, off).value < start
    ensures FinalEnd(data, off, start) <= e <==> OwnEnd(data, off) <= e && (Target(data, off).Some? ==> WithinEnd(data, Target(data, off).value, e))
    decreases start, |data| - off
  {
    var n := data[off];
    if n >= 0xc0 {
      EndWithin(data, PointerAt(data, off), PointerAt(data, off), e);
    } else if n != 0 {
      EndWithin(data, off + n + 1, start, e);
    }
  }

  // The reported offset is the furthest end of these runs. It is the end of the name's own
  // bytes exactly if none of the other runs goes past that.
  lemma {:induction false} FinalIsOwn(data: seq<byte>, off: nat, e: nat)
    requires off < |data| && Expand(data, off, off).Some?
    ensures FinalEnd(data, off, off) <= e <==> WithinEnd(data, off, e)
    ensures FinalEnd(data, off, off) == OwnEnd(data, off) <==> WithinEnd(data, off, OwnEnd(data, off))
  {
    hide Expand, FinalEnd, OwnEnd, Target;
    EndWithin(data, off, off, e);
    EndWithin(data, off, off, OwnEnd(data, off));
    EndBounds(data, off, off);
  }

  // It is not always: here the pointer at 2 leads to a label that reaches past it.
  lemma {:induction false} FinalIsNotAlwaysOwn()
    ensures var data := [3, 65, 0xc0, 0, 0];
            Expand(data, 2, 2) == Some([[65, 0xc0, 0]]) && OwnEnd(data, 2) == 4 && FinalEnd(data, 2, 2) == 5
  {
    var data: seq<byte> := [3, 65, 0xc0, 0, 0];
    RunsPast(data, data[0]);
    assert data[1..4] == [65, 0xc0, 0];
  }

  lemma {:induction false} RunsPast(data: seq<byte>, n: byte)
    requires |data| == 5 && data[0] == n == 3 && data[2] == 0xc0 && data[3] == 0 && data[4] == 0
    ensures Expand(data, 2, 2) == Some([data[1..4]]) && OwnEnd(data, 2) == 4 && FinalEnd(data, 2, 2) == 5
  {
    assert PointerAt(data, 2) == 0;
    assert Expand(data, 4, 0) == Some([]) && FinalEnd(data, 4, 0) == 5;
    assert data[1..1 + n] == data[1..4];
    assert [data[1..4]] + [] == [data[1..4]];
    assert Expand(data, 0, 0) == Some([data[1..4]]);
  }

  /*** What section 4.1.4 of RFC 1035 says ***/

  // The offset of a pointer: the lower 14 of the 16 bits at off, in network order.
  ghost function Offset14(data: seq<byte>, off: nat): nat
    requires off + 1 < |data|
  {
    (data[off] as int * 256 + data[off + 1] as int) % 0x4000
  }

  lemma {:induction false} PointerIs14Bits(data: seq<byte>, off: nat)
    requires off + 1 < |data| && data[off] >= 0xc0
    ensures PointerAt(data, off) == Offset14(data, off)
  {
  }

  // A pointer to p, written as in section 4.1.4.
  ghost predicate PointerTo(data: seq<byte>, off: nat, p: nat) {
    off + 1 < |data| && p < 0x4000 && data[off] == 0xc0 + p / 256 && data[off + 1] == p % 256
  }

  // It leads where it says.
  lemma {:induction false} PointerReadBack(data: seq<byte>, off: nat, start: nat, p: nat)
    requires PointerTo(data, off, p) && p < start <= off
    ensures Expand(data, off, start) == Expand(data, p, p)
  {
  }

  // The labels in front of those of a name, if there is one.
  function Prepend(ls: seq<Label>, name: Option<seq<Label>>): Option<seq<Label>> {
    match name
    case None => None
    case Some(rest) => Some(ls + rest)
  }

  // A name written as its first labels and a pointer to the rest is read back.
  lemma {:induction false} CompressedReadBack(data: seq<byte>, off: nat, ls: seq<Label>, start: nat, p: nat)
    requires ValidName(ls) && off + |WireBody(ls)| <= |data| && data[off..off + |WireBody(ls)|] == WireBody(ls)
    requires PointerTo(data, off + |WireBody(ls)|, p) && p < start <= off
    ensures Expand(data, off, start) == Prepend(ls, Expand(data, p, p))
    decreases |ls|
  {
    if ls == [] {
      hide Expand;
      PointerReadBack(data, off, start, p);
      assert forall rest: seq<Label> :: [] + rest == rest;
    } else {
      hide Expand, LabelBytes, WireBody, PointerTo;
      var l, rest := ls[0], ls[1..];
      BodyCons(ls);
      SliceParts(data, off, LabelBytes(l), WireBody(rest));
      PointerWithin(data, off + |WireBody(ls)|, p);
      CompressedReadBack(data, off + |l| + 1, rest, start, p);
      ExpandLabel(data, off, start, l);
      PrependTwice(l, rest, Expand(data, p, p));
      assert [l] + rest == ls;
    }
  }

  lemma {:induction false} PointerWithin(data: seq<byte>, off: nat, p: nat)
    requires PointerTo(data, off, p)
    ensures off + 1 < |data|
  {
  }

  lemma {:induction false} BodyCons(ls: seq<Label>)
    requires ls != [] && ValidName(ls)
    ensures ValidLabel(ls[0]) && ValidName(ls[1..]) && WireBody(ls) == LabelBytes(ls[0]) + WireBody(ls[1..])
  {
  }

  lemma {:induction false} PrependTwice(l: Label, ls: seq<Label>, name: Option<seq<Label>>)
    ensures Prepend([l], Prepend(ls, name)) == Prepend([l] + ls, name)
  {
    if name.Some? {
      Assoc([l], ls, name.value);
    }
  }

  // The labels found by reading at most k octets groups from off: labels until a zero octet,
  // going on elsewhere at a pointer.
  ghost function Walk(data: seq<byte>, off: nat, k: nat): Option<seq<Label>>
    decreases k
  {
    if k == 0 || off >= |data| then None
    else if data[off] == 0 then Some([])
    else if data[off] >= 0xc0 then
      if off + 1 >= |data| then None else Walk(data, Offset14(data, off), k - 1)
    else if data[off] > 63 || off + data[off] as int + 1 > |data| then None
    else
      match Walk(data, off + data[off] as int + 1, k - 1)
      case None => None
      case Some(r) => Some([data[off + 1..off + 1 + data[off] as int]] + r)
  }

  // Every pointer on the way leads to before the start of the run it stands in.
  ghost predicate Backward(data: seq<byte>, off: nat, start: nat, k: nat)
    decreases k
  {
    k > 0 && off < |data| && data[off] != 0 ==>
      if data[off] >= 0xc0 then
        off + 1 < |data| ==> Offset14(data, off) < start && Backward(data, Offset14(data, off), Offset14(data, off), k - 1)
      else Backward(data, off + data[off] as int + 1, start, k - 1)
  }

  // More steps do not change the name found.
  lemma {:induction false} WalkStable(data: seq<byte>, off: nat, k: nat, j: nat)
    requires Walk(data, off, k).Some? && k <= j
    ensures Walk(data, off, j) == Walk(data, off, k)
    decreases k
  {
    if data[off] >= 0xc0 {
      WalkStable(data, Offset14(data, off), k - 1, j - 1);
    } else if data[off] != 0 {
      WalkStable(data, off + data[off] as int + 1, k - 1, j - 1);
    }
  }

  lemma {:induction false} ExpandWalks(data: seq<byte>, off: nat, start: nat) returns (k: nat)
    requires start <= off < |data| && Expand(data, off, start).Some?
    ensures Walk(data, off, k) == Expand(data, off, start) && Backward(data, off, start, k)
    decreases start, |data| - off
  {
    if data[off] >= 0xc0 {
      PointerIs14Bits(data, off);
      var j := ExpandWalks(data, PointerAt(data, off), PointerAt(data, off));
      k := j + 1;
    } else if data[off] != 0 {
      var j := ExpandWalks(data, off + data[off] as int + 1, start);
      k := j + 1;
    } else {
      k := 1;
    }
  }

  lemma {:induction false} WalkExpands(data: seq<byte>, off: nat, start: nat, k: nat)
    requires start <= off < |data| && Walk(data, off, k).Some? && Backward(data, off, start, k)
    ensures Expand(data, off, start) == Walk(data, off, k)
    decreases k
  {
    if data[off] >= 0xc0 {
      PointerIs14Bits(data, off);
      WalkExpands(data, PointerAt(data, off), PointerAt(data, off), k - 1);
    } else if data[off] != 0 {
      WalkExpands(data, off + data[off] as int + 1, start, k - 1);
    }
  }

  // dname_expand finds exactly the names of the RFC whose pointers all lead backwards.
  lemma {:induction false} ExpandMeaning(data: seq<byte>, off: nat, ls: seq<Label>)
    requires off < |data|
    ensures Expand(data, off, off) == Some(ls) <==>
              exists k: nat :: Walk(data, off, k) == Some(ls) && Backward(data, off, off, k)
  {
    if Expand(data, off, off) == Some(ls) {
      var k := ExpandWalks(data, off, off);
    }
    if k: nat :| Walk(data, off, k) == Some(ls) && Backward(data, off, off, k) {
      WalkExpands(data, off, off, k);
    }
  }

  lemma {:induction false} ExpandLabel(data: seq<byte>, off: nat, start: nat, l: Label)
    requires start <= off && off + |l| + 1 < |data| && ValidLabel(l) && data[off..off + |l| + 1] == LabelBytes(l)
    ensures Expand(data, off, start) ==
              match Expand(data, off + |l| + 1, start) { case None => None case Some(r) => Some([l] + r) }
    ensures FinalEnd(data, off, start) == FinalEnd(data, off + |l| + 1, start)
  {
    assert data[off] == data[off..off + |l| + 1][0] == |l|;
    assert data[off + 1..off + 1 + |l|] == data[off..off + |l| + 1][1..];
  }

  lemma {:induction false} WireCons(l: Label, ls: seq<Label>)
    requires ValidLabel(l) && ValidName(ls)
    ensures ValidName([l] + ls) && Wire([l] + ls) == LabelBytes(l) + Wire(ls)
  {
    assert ([l] + ls)[1..] == ls;
  }

  lemma {:induction false} SliceParts(data: seq<byte>, off: nat, a: seq<byte>, b: seq<byte>)
    requires off + |a| + |b| <= |data| && data[off..off + |a| + |b|] == a + b
    ensures data[off..off + |a|] == a && data[off + |a|..off + |a| + |b|] == b
  {
    assert data[off..off + |a|] == data[off..off + |a| + |b|][..|a|];
    assert data[off + |a|..off + |a| + |b|] == data[off..off + |a| + |b|][|a|..];
  }

  lemma {:induction false} ExpandAt(data: seq<byte>, off: nat, ls: seq<Label>, start: nat)
    requires ValidName(ls) && start <= off && off + |Wire(ls)| <= |data| && data[off..off + |Wire(ls)|] == Wire(ls)
    ensures Expand(data, off, start) == Some(ls) && FinalEnd(data, off, start) == off + |Wire(ls)|
    decreases |ls|
  {
    if ls != [] {
      hide Wire, WireBody, LabelBytes, Expand, FinalEnd;
      var l, rest := ls[0], ls[1..];
      assert [l] + rest == ls;
      WireCons(l, rest);
      SliceParts(data, off, LabelBytes(l), Wire(rest));
      ExpandAt(data, off + |l| + 1, rest, start);
      ExpandLabel(data, off, start, l);
    } else {
      assert data[off] == data[off..off + 1][0] == 0;
    }
  }

  // A name written out in full is read back, and the offset is right behind it.
  lemma {:induction false} ExpandWire(pre: seq<byte>, ls: seq<Label>, post: seq<byte>, start: nat)
    requires ValidName(ls) && start <= |pre|
    ensures var data := pre + Wire(ls) + post;
            Expand(data, |pre|, start) == Some(ls) && FinalEnd(data, |pre|, start) == |pre| + |Wire(ls)|
  {
    hide Wire, Expand, FinalEnd;
    ExpandAt(pre + Wire(ls) + post, |pre|, ls, start);
  }

  /*** The code ***/

  // memmove of as much of src as fits, behind w.
  method Copy(dst: array<byte>, at: nat, src: seq<byte>, ghost w: seq<byte>) returns (count: nat)
    requires at == Min(|w|, dst.Length) && Written(dst, w)
    modifies dst
    ensures count == Min(|src|, dst.Length - at) && Written(dst, w + src)
  {
    count := Min(|src|, dst.Length - at);
    forall i | 0 <= i < count {
      dst[at + i] := src[i];
    }
  }

  method PutLabel(dst: array<byte>, at: nat, l: Label, ghost w: seq<byte>) returns (count: nat)
    requires at == |w| < dst.Length && Written(dst, w) && ValidLabel(l)
    modifies dst
    ensures count == Min(|l| + 1, dst.Length - at) && Written(dst, w + LabelBytes(l))
  {
    dst[at] := |l|;
    var n := Copy(dst, at + 1, l, w + [dst[at]]);
    count := 1 + n;
    assert (w + [dst[at]]) + l == w + LabelBytes(l);
  }

  // _asr_dname_from_fqdn for no buffer or one of at least one byte: the result is -1 or the
  // length of the wire form, which is written as far as the buffer goes.
  method FromFqdn(str: seq<byte>, dst: array?<byte>) returns (res: int)
    requires 0 !in str && (dst != null ==> dst.Length > 0)
    modifies dst
    ensures res == -1 <==> FqdnLabels(str).None?
    ensures res != -1 ==>
              var ls := FqdnLabels(str).value;
              ValidName(ls) && res == |Wire(ls)| && (dst != null ==> Written(dst, Wire(ls)))
  {
    hide ParseDotted, WireBody, LabelBytes, ParsedTo;
    if str != [] && str[0] == DOT {
      if |str| != 1 { return -1; }
      if dst != null { dst[0] := 0; }
      RootWire();
      return 1;
    }
    res := 0;
    var pos: nat, dpos: nat, max: nat, active := 0, 0, if dst == null then 0 else dst.Length, dst != null;
    ghost var done: seq<Label> := [];
    ParseStart(str);
    RootWire();
    while pos < |str|
      invariant pos <= |str| && ValidName(done) && res == |WireBody(done)| && ParsedTo(str, pos, done)
      invariant (active <==> max > 0) && (active ==> dst != null)
      invariant dst != null ==> dpos + max == dst.Length && dpos == Min(res, dst.Length) && Written(dst, WireBody(done))
    {
      var l := IndexOf(str[pos..], DOT);
      ParseStep(str, pos, done);
      if pos + l == |str| || l == 0 || l > 63 { return -1; }
      ghost var lab := str[pos..][..l];
      WireAppend(done, lab);
      if active {
        var n := PutLabel(dst, dpos, str[pos..][..l], WireBody(done));
        max, dpos := max - n, dpos + n;
        active := max != 0;
      }
      res := res + l + 1;
      pos := pos + l + 1;
      done := done + [lab];
    }
    ParseDone(str, done);
    if active {
      dst[dpos] := 0;
    }
    res := res + 1;
  }

  lemma {:induction false} RootWire()
    ensures ValidName([]) && WireBody([]) == []
  {
  }

  // The buffer holds the bytes, as far as it goes.
  ghost predicate Written(dst: array<byte>, w: seq<byte>)
    reads dst
  {
    forall i :: 0 <= i < Min(|w|, dst.Length) ==> dst[i] == w[i]
  }

  // Parsing the rest of the string from pos, behind the labels done, parses the string.
  ghost predicate ParsedTo(str: seq<byte>, pos: nat, done: seq<Label>) {
    pos <= |str| &&
    match ParseDotted(str[pos..])
    case None => ParseDotted(str).None?
    case Some(r) => ParseDotted(str) == Some(done + r)
  }

  lemma {:induction false} ParseStart(str: seq<byte>)
    ensures ParsedTo(str, 0, [])
  {
    assert str[0..] == str && forall r: seq<Label> :: [] + r == r;
  }

  lemma {:induction false} ParseDone(str: seq<byte>, done: seq<Label>)
    requires ParsedTo(str, |str|, done)
    ensures ParseDotted(str) == Some(done)
  {
    assert str[|str|..] == [] && done + [] == done;
  }

  lemma {:induction false} ParseStep(str: seq<byte>, pos: nat, done: seq<Label>)
    requires pos < |str| && ParsedTo(str, pos, done)
    ensures var l := IndexOf(str[pos..], DOT);
            if pos + l == |str| || l == 0 || l > 63 then ParseDotted(str).None?
            else ValidLabel(str[pos..][..l]) && ParsedTo(str, pos + l + 1, done + [str[pos..][..l]])
  {
    hide IndexOf;
    var s := str[pos..];
    var l := IndexOf(s, DOT);
    if 0 < l < |s| && l <= 63 {
      assert s[l + 1..] == str[pos + l + 1..];
      assert forall r: seq<Label> :: done + ([s[..l]] + r) == (done + [s[..l]]) + r;
    }
  }

  // dname_expand: the result is -1 or the length of the expanded name, which is written as
  // far as the buffer goes, if there is one; the new offset lies behind the old one, within the packet.
  method ExpandName(data: seq<byte>, offset: nat, dst: array?<byte>) returns (res: int, newoffset: nat)
    modifies dst
    ensures res == -1 <==> offset >= |data| || Expand(data, offset, offset).None?
    ensures res == -1 ==> newoffset == offset
    ensures res != -1 ==>
              var ls := Expand(data, offset, offset).value;
              res == |Wire(ls)| && (dst != null ==> Written(dst, Wire(ls)))
              && newoffset == FinalEnd(data, offset, offset) && offset < newoffset <= |data|
  {
    hide Expand, FinalEnd, WireBody, LabelBytes, ExpandedTo;
    newoffset := offset;
    if offset >= |data| { return -1, offset; }
    res := 0;
    var off: nat, start: nat, end: nat, dpos: nat := offset, offset, offset, 0;
    ghost var done: seq<Label> := [];
    ExpandStart(data, offset);
    RootWire();
    while data[off] != 0
      invariant start <= off < |data| && ExpandedTo(data, offset, off, start, end, done)
      invariant ValidName(done) && res == |WireBody(done)|
      invariant dst != null ==> dpos == Min(res, dst.Length) && Written(dst, WireBody(done))
      decreases start, |data| - off
    {
      var n: nat := data[off];
      if n >= 0xc0 {
        ExpandJump(data, offset, off, start, end, done);
        if off + 1 >= |data| { return -1, offset; }
        var ptr := PointerAt(data, off);
        if ptr >= start { return -1, offset; }
        if end < off + 2 { end := off + 2; }
        off, start := ptr, ptr;
      } else {
        ExpandStep(data, offset, off, start, end, done);
        if off + n + 1 >= |data| { return -1, offset; }
        if n > 63 { return -1, offset; }
        ghost var lab := data[off + 1..off + 1 + n];
        WireAppend(done, lab);
        LabelInData(data, off);
        if dst != null && dpos < dst.Length {
          var count := Copy(dst, dpos, data[off..off + n + 1], WireBody(done));
          dpos := dpos + count;
        }
        res := res + n + 1;
        off := off + n + 1;
        if end < off { end := off; }
        done := done + [lab];
      }
    }
    ExpandEnd(data, offset, off, start, end, done);
    if end < off + 1 { end := off + 1; }
    EndBounds(data, offset, offset);
    if dst != null && dpos < dst.Length { dst[dpos] := 0; }
    newoffset := end;
    res := res + 1;
  }

  // Expanding from off, behind the labels done, gives the expansion from off0; end is the
  // furthest end met so far.
  ghost predicate ExpandedTo(data: seq<byte>, off0: nat, off: nat, start: nat, end: nat, done: seq<Label>) {
    start <= off < |data| && off0 < |data| &&
    match Expand(data, off, start)
    case None => Expand(data, off0, off0).None?
    case Some(r) => Expand(data, off0, off0) == Some(done + r)
                    && Max(end, FinalEnd(data, off, start)) == FinalEnd(data, off0, off0)
  }

  lemma {:induction false} ExpandStart(data: seq<byte>, off: nat)
    requires off < |data|
    ensures ExpandedTo(data, off, off, off, off, [])
  {
    hide Expand, FinalEnd;
    assert forall r: seq<Label> :: [] + r == r;
    if Expand(data, off, off).Some? { EndBounds(data, off, off); }
  }

  lemma {:induction false} ExpandJump(data: seq<byte>, off0: nat, off: nat, start: nat, end: nat, done: seq<Label>)
    requires ExpandedTo(data, off0, off, start, end, done) && data[off] >= 0xc0
    ensures if off + 1 >= |data| || PointerAt(data, off) >= start then Expand(data, off0, off0).None?
            else ExpandedTo(data, off0, PointerAt(data, off), PointerAt(data, off), Max(end, off + 2), done)
  {
  }

  lemma {:induction false} ExpandStep(data: seq<byte>, off0: nat, off: nat, start: nat, end: nat, done: seq<Label>)
    requires ExpandedTo(data, off0, off, start, end, done) && 0 < data[off] < 0xc0
    ensures var n: nat := data[off];
            if off + n + 1 >= |data| || n > 63 then Expand(data, off0, off0).None?
            else ExpandedTo(data, off0, off + n + 1, start, Max(end, off + n + 1), done + [data[off + 1..off + 1 + n]])
  {
    var n: nat := data[off];
    if off + n + 1 < |data| && n <= 63 {
      var lab := data[off + 1..off + 1 + n];
      if Expand(data, off + n + 1, start).Some? {
        EndBounds(data, off + n + 1, start);
        assert forall r: seq<Label> :: done + ([lab] + r) == (done + [lab]) + r;
      }
    }
  }

  lemma {:induction false} ExpandEnd(data: seq<byte>, off0: nat, off: nat, start: nat, end: nat, done: seq<Label>)
    requires ExpandedTo(data, off0, off, start, end, done) && data[off] == 0
    ensures Expand(data, off0, off0) == Some(done) && FinalEnd(data, off0, off0) == Max(end, off + 1)
  {
    assert done + [] == done;
  }

  lemma {:induction false} LabelInData(data: seq<byte>, off: nat)
    requires off < |data| && 0 < data[off] <= 63 && off + data[off] as int + 1 <= |data|
    ensures data[off..off + data[off] as int + 1] == LabelBytes(data[off + 1..off + 1 + data[off] as int])
  {
  }

  // A text cut to cap bytes, with a dot as the last one.
  function Shown(t: seq<byte>, cap: nat): seq<byte> {
    if |t| <= cap then t else if cap == 0 then [] else t[..cap - 1] + [DOT]
  }

  // _asr_strdname of a wire name: the text, or as much as fits with a dot at the end.
  method ToText(dname: seq<byte>, buf: array<byte>, ghost ls: seq<Label>) returns (len: nat)
    requires ValidName(ls) && Wire(ls) <= dname && buf.Length > 0
    modifies buf
    ensures len == Min(|Text(ls)|, buf.Length - 1) && buf[..len] == Shown(Text(ls), buf.Length - 1) && buf[len] == 0
  {
    hide WireBody, LabelBytes, Dotted, Shown;
    WireFirst(ls, 0, dname);
    ShownFits(Text(ls), buf.Length - 1);
    if dname[0] == 0 {
      if buf.Length > 1 {
        buf[0] := DOT;
        len := 1;
      } else {
        len := 0;
      }
      buf[len] := 0;
    } else {
      len := LabelsToText(dname, buf, ls);
    }
  }

  method LabelsToText(dname: seq<byte>, buf: array<byte>, ghost ls: seq<Label>) returns (len: nat)
    requires ValidName(ls) && ls != [] && Wire(ls) <= dname && buf.Length > 0
    modifies buf
    ensures len == Min(|Dotted(ls)|, buf.Length - 1) && buf[..len] == Shown(Dotted(ls), buf.Length - 1) && buf[len] == 0
  {
    hide Wire, WireBody, LabelBytes, Dotted, Shown, AtName, ValidName;
    var pos: nat, left: nat := 0, buf.Length - 1;
    len := 0;
    ghost var done: seq<Label>, rest := [], ls;
    TextStart(dname, buf, ls);
    assert AtName(ls, 0, dname) && dname[0] != 0 by { NameStart(ls, dname); }
    while dname[pos] != 0 && left > 0
      invariant done + rest == ls && AtName(rest, pos, dname)
      invariant pos < |dname| && (dname[pos] == 0 <==> rest == [])
      invariant len + left == buf.Length - 1 && buf[..len] == Shown(Dotted(done), buf.Length - 1)
      invariant if left > 0 then len == |Dotted(done)| else |Dotted(done)| >= len
      decreases |rest|
    {
      NextName(rest, pos, dname);
      var n: nat := dname[pos];
      ShownFits(Dotted(done), buf.Length - 1);
      var count := PutText(buf, len, left, dname[pos + 1..pos + 1 + n], done);
      left, len := left - count, len + count;
      pos := pos + n + 1;
      done, rest := done + [rest[0]], rest[1..];
    }
    ShownAll(done, rest, buf.Length - 1);
    ShownFits(Dotted(ls), buf.Length - 1);
    ghost var shown := buf[..len];
    buf[len] := 0;
    assert buf[..len] == shown;
  }

  lemma {:induction false} TextStart(dname: seq<byte>, buf: array<byte>, ls: seq<Label>)
    requires buf.Length > 0
    ensures [] + ls == ls && dname[0..] == dname && Dotted([]) == [] && buf[..0] == Shown([], buf.Length - 1)
  {
  }

  lemma {:induction false} ShownFits(t: seq<byte>, cap: nat)
    ensures |Shown(t, cap)| == Min(|t|, cap)
    ensures |t| <= cap ==> Shown(t, cap) == t
    ensures cap == 0 ==> Shown(t, cap) == []
  {
  }

  // One label and its dot, cut to what is left.
  method PutText(buf: array<byte>, len: nat, left: nat, l: Label, ghost done: seq<Label>) returns (count: nat)
    requires 0 < left && len + left == buf.Length - 1 && len == |Dotted(done)| && buf[..len] == Dotted(done)
    modifies buf
    ensures count == Min(|l| + 1, left)
    ensures buf[..len + count] == Shown(Dotted(done + [l]), buf.Length - 1) && |Dotted(done + [l])| == len + |l| + 1
  {
    hide Dotted;
    DottedAppend(done, l);
    ghost var before := buf[..len];
    count := Min(|l|, left - 1);
    forall i | 0 <= i < count {
      buf[len + i] := l[i];
    }
    buf[len + count] := DOT;
    assert buf[..len + count + 1] == before + l[..count] + [DOT];
    count := count + 1;
  }

  // Once the buffer is full, more labels do not change what is shown.
  lemma {:induction false} ShownAll(done: seq<Label>, rest: seq<Label>, cap: nat)
    requires rest == [] || |Dotted(done)| >= cap
    ensures Shown(Dotted(done), cap) == Shown(Dotted(done + rest), cap)
  {
    hide Dotted;
    DottedConcat(done, rest);
    if rest == [] {
      assert done + rest == done;
    } else if done != [] {
      var last := done[|done| - 1];
      DottedAppend(done[..|done| - 1], last);
      assert done[..|done| - 1] + [last] == done;
    } else {
      DottedNone();
    }
  }

  lemma {:induction false} DottedConcat(a: seq<Label>, b: seq<Label>)
    ensures Dotted(a + b) == Dotted(a) + Dotted(b)
  {
    if a == [] {
      assert a + b == b;
      assert Dotted(a) + Dotted(b) == Dotted(b);
    } else {
      DottedConcat(a[1..], b);
      assert (a + b)[1..] == a[1..] + b;
      Assoc(a[0] + [DOT], Dotted(a[1..]), Dotted(b));
    }
  }

  lemma {:induction false} DottedNone()
    ensures Dotted([]) == []
  {
  }

  // The wire form of a name is at pos.
  ghost predicate AtName(ls: seq<Label>, pos: nat, dname: seq<byte>) {
    ValidName(ls) && pos <= |dname| && Wire(ls) <= dname[pos..]
  }

  lemma {:induction false} NameStart(ls: seq<Label>, dname: seq<byte>)
    requires ValidName(ls) && ls != [] && Wire(ls) <= dname
    ensures AtName(ls, 0, dname) && dname[0] != 0
  {
    hide Wire;
    assert dname[0..] == dname;
    WireFirst(ls, 0, dname);
  }

  lemma {:induction false} NextName(ls: seq<Label>, pos: nat, dname: seq<byte>)
    requires AtName(ls, pos, dname) && ls != []
    ensures pos < |dname|
    ensures var n := |ls[0]|;
            && dname[pos] as int == n && pos + n + 1 < |dname| && dname[pos + 1..pos + 1 + n] == ls[0]
            && AtName(ls[1..], pos + n + 1, dname) && (dname[pos + n + 1] == 0 <==> ls[1..] == [])
  {
    hide Wire;
    WireFirst(ls, pos, dname);
    WireFirst(ls[1..], pos + |ls[0]| + 1, dname);
  }

  // What the wire form of a name starts with.
  lemma {:induction false} WireFirst(ls: seq<Label>, pos: nat, dname: seq<byte>)
    requires ValidName(ls) && pos <= |dname| && Wire(ls) <= dname[pos..]
    ensures pos < |dname| && (dname[pos] == 0 <==> ls == [])
    ensures ls != [] ==> var n := |ls[0]|;
                         dname[pos] == n && pos + n + 1 < |dname| && dname[pos + 1..pos + 1 + n] == ls[0]
                         && Wire(ls[1..]) <= dname[pos + n + 1..]
  {
    var d := dname[pos..];
    assert d[0] == dname[pos];
    if ls != [] {
      var n := |ls[0]|;
      assert Wire(ls) == LabelBytes(ls[0]) + Wire(ls[1..]);
      assert d[0] == n && d[1..n + 1] == Wire(ls)[1..n + 1] == ls[0];
      assert d[n + 1..][..|Wire(ls[1..])|] == Wire(ls)[n + 1..];
    }
  }
}
