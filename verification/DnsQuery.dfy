/** Building a DNS query and checking its answer (openbsd-compat/libasr/res_send_async.c). */
module DnsQuery {
  import opened Common
  import opened Dname
  import opened DnsPacket
  import Modular

  const PACKETSZ: nat := 512
  const MAXPACKETSZ: nat := 4096
  const QR_MASK: nat := 0x8000
  const TC_MASK: nat := 0x0200
  const RD_MASK: nat := 0x0100
  const Z_MASK: nat := 0x0040
  const AD_MASK: nat := 0x0020
  const CD_MASK: nat := 0x0010
  const OP_QUERY: nat := 0

  // What an answer has to match; dname holds a C string.
  datatype Wanted = Wanted(reqid: nat, typ: nat, cls: nat, dname: seq<byte>)

  function Opcode(flags: nat): nat {
    flags / 0x800 % 16
  }

  /*** C strings ***/

  function CString(s: seq<byte>): seq<byte> {
    s[..IndexOf(s, 0)]
  }

  function Lower(b: byte): byte {
    if 65 <= b <= 90 then b + 32 else b
  }

  predicate CaseEqual(a: seq<byte>, b: seq<byte>) {
    |a| == |b| && forall i :: 0 <= i < |a| ==> Lower(a[i]) == Lower(b[i])
  }

  // strcasecmp, as a test for equality
  method StrCaseEqual(a: seq<byte>, b: seq<byte>) returns (equal: bool)
    requires 0 in a && 0 in b
    ensures equal == CaseEqual(CString(a), CString(b))
  {
    var i := 0;
    while a[i] != 0 && Lower(a[i]) == Lower(b[i])
      invariant i <= IndexOf(a, 0) < |a| && i <= IndexOf(b, 0) < |b|
      invariant forall j :: 0 <= j < i ==> Lower(a[j]) == Lower(b[j])
      decreases |a| - i
    {
      Before(a, i);
      i := i + 1;
      Before(b, i - 1);
    }
    equal := a[i] == b[i] == 0;
    Before(a, i);
    Before(b, i);
    if i < IndexOf(a, 0) && i < IndexOf(b, 0) {
      assert CString(a)[i] == a[i] && CString(b)[i] == b[i];
    }
  }

  lemma {:induction false} Before(s: seq<byte>, i: nat)
    requires 0 in s && i <= IndexOf(s, 0)
    ensures IndexOf(s, 0) < |s| && (s[i] == 0 <==> i == IndexOf(s, 0))
  {
    var n := IndexOf(s, 0);
    assert s[..|s|] == s;
    assert i < n ==> s[i] == s[..n][i];
  }

  // Names are compared label by label, without regard to case.
  ghost predicate SameName(a: seq<Label>, b: seq<Label>) {
    |a| == |b| && forall i :: 0 <= i < |a| ==> CaseEqual(a[i], b[i])
  }

  lemma {:induction false} SkipNonZero(a: seq<byte>, rest: seq<byte>)
    requires 0 !in a
    ensures IndexOf(a + rest, 0) == |a| + IndexOf(rest, 0) && CString(a + rest) == a + CString(rest)
  {
    if a == [] {
      assert a + rest == rest;
      assert a + CString(rest) == CString(rest);
    } else {
      SkipNonZero(a[1..], rest);
      assert (a + rest)[1..] == a[1..] + rest && (a + rest)[0] == a[0];
    }
  }

  // A label that agrees with one without zero bytes has none either.
  lemma {:induction false} NoZeroLabel(l: Label, m: Label)
    requires CaseEqual(l, m) && 0 !in m
    ensures 0 !in l
  {
    assert forall i :: 0 <= i < |l| ==> Lower(l[i]) == Lower(m[i]) && m[i] != 0;
  }

  lemma {:induction false} CaseConcat(a: seq<byte>, b: seq<byte>, c: seq<byte>, d: seq<byte>)
    requires |a| == |c|
    ensures CaseEqual(a + b, c + d) <==> CaseEqual(a, c) && CaseEqual(b, d)
  {
    if CaseEqual(a + b, c + d) {
      assert forall i :: 0 <= i < |a| ==> a[i] == (a + b)[i] && c[i] == (c + d)[i];
      assert forall i :: 0 <= i < |b| ==> b[i] == (a + b)[|a| + i] && d[i] == (c + d)[|a| + i];
    }
  }

  lemma {:induction false} CaseLabelBytes(l: Label, m: Label)
    requires ValidLabel(l) && ValidLabel(m)
    ensures |l| == |m| ==> (CaseEqual(LabelBytes(l), LabelBytes(m)) <==> CaseEqual(l, m))
    ensures Lower(LabelBytes(l)[0]) == Lower(LabelBytes(m)[0]) ==> |l| == |m|
  {
    if |l| == |m| {
      CaseConcat([|l|], l, [|m|], m);
    }
  }

  lemma {:induction false} WireStrings(ls: seq<Label>, q: seq<Label>)
    requires ValidName(ls) && ValidName(q) && ls != [] && q != [] && |ls[0]| == |q[0]| && 0 !in ls[0] && 0 !in q[0]
    ensures CaseEqual(CString(Wire(ls)), CString(Wire(q))) <==>
              CaseEqual(ls[0], q[0]) && CaseEqual(CString(Wire(ls[1..])), CString(Wire(q[1..])))
  {
    hide WireBody, LabelBytes, CString, CaseEqual;
    FirstWire(ls);
    FirstWire(q);
    NonZeroBytes(ls[0]);
    NonZeroBytes(q[0]);
    SkipNonZero(LabelBytes(ls[0]), Wire(ls[1..]));
    SkipNonZero(LabelBytes(q[0]), Wire(q[1..]));
    CaseConcat(LabelBytes(ls[0]), CString(Wire(ls[1..])), LabelBytes(q[0]), CString(Wire(q[1..])));
    CaseLabelBytes(ls[0], q[0]);
  }

  lemma {:induction false} NonZeroBytes(l: Label)
    requires ValidLabel(l)
    ensures 0 !in LabelBytes(l) <==> 0 !in l
  {
  }

  lemma {:induction false} FirstWire(ls: seq<Label>)
    requires ValidName(ls) && ls != []
    ensures Wire(ls) == LabelBytes(ls[0]) + Wire(ls[1..])
  {
    assert [ls[0]] + ls[1..] == ls;
    WireCons(ls[0], ls[1..]);
  }

  // If the strings agree, the first labels are equally long and free of zero bytes.
  lemma {:induction false} SameFirst(ls: seq<Label>, q: seq<Label>)
    requires ValidName(ls) && TextName(q) && ValidName(q) && q != []
    requires CaseEqual(CString(Wire(ls)), CString(Wire(q)))
    ensures ls != [] && |ls[0]| == |q[0]| && 0 !in ls[0]
  {
    hide WireBody, IndexOf;
    var s, t := CString(Wire(ls)), CString(Wire(q));
    FirstWire(q);
    assert TextLabel(q[0]);
    NonZeroBytes(q[0]);
    SkipNonZero(LabelBytes(q[0]), Wire(q[1..]));
    var n := |q[0]|;
    assert |s| == |t| >= n + 1 && s[0] == Wire(ls)[0] && t[0] == LabelBytes(q[0])[0];
    assert Lower(s[0]) == Lower(t[0]) && s[0] != 0;
    WireZero(ls);
    FirstWire(ls);
    assert s[0] == LabelBytes(ls[0])[0];
    CaseLabelBytes(ls[0], q[0]);
    assert forall i :: 0 <= i < n ==> ls[0][i] == s[i + 1];
  }

  lemma {:induction false} WireZero(ls: seq<Label>)
    requires ValidName(ls)
    ensures Wire(ls)[0] == 0 <==> ls == []
  {
  }

  // Comparing the C strings compares the names, for any answer and any query name made
  // from text.
  lemma {:induction false} StringsAreNames(ls: seq<Label>, q: seq<Label>)
    requires ValidName(ls) && TextName(q) && ValidName(q)
    ensures CaseEqual(CString(Wire(ls)), CString(Wire(q))) <==> SameName(ls, q)
    decreases |q|
  {
    hide WireBody, LabelBytes, IndexOf, CString;
    if q == [] {
      EmptyStrings(ls);
    } else if CaseEqual(CString(Wire(ls)), CString(Wire(q))) {
      SameFirst(ls, q);
      assert TextLabel(q[0]);
      WireStrings(ls, q);
      StringsAreNames(ls[1..], q[1..]);
      assert forall i :: 0 < i < |ls| ==> ls[i] == ls[1..][i - 1] && q[i] == q[1..][i - 1];
    } else if SameName(ls, q) {
      assert TextLabel(q[0]);
      NoZeroLabel(ls[0], q[0]);
      assert SameName(ls[1..], q[1..]);
      StringsAreNames(ls[1..], q[1..]);
      WireStrings(ls, q);
    }
  }

  lemma {:induction false} EmptyStrings(ls: seq<Label>)
    requires ValidName(ls)
    ensures CaseEqual(CString(Wire(ls)), CString(Wire([]))) <==> ls == []
  {
    hide WireBody;
    WireZero(ls);
    WireZero([]);
  }

  /*** Checking an answer ***/

  predicate GoodHeader(h: DnsHeader, w: Wanted) {
    h.id == w.reqid && h.qdcount == 1 && !Flag(h.flags, Z_MASK) && Opcode(h.flags) == OP_QUERY && Flag(h.flags, QR_MASK)
  }

  predicate GoodQuestion(q: Question, w: Wanted)
    requires forall i :: 0 <= i < |q.name| ==> ValidLabel(q.name[i])
  {
    q.typ == w.typ && q.cls == w.cls && CaseEqual(CString(Wire(q.name)), CString(w.dname))
  }

  function Records(h: DnsHeader): nat {
    h.ancount + h.nscount + h.arcount
  }

  // validate_packet
  function Validate(pkt: seq<byte>, w: Wanted, igntc: bool): Errno {
    if |pkt| < HFIXEDSZ || !GoodHeader(HeaderAt(pkt), w) then EINVAL
    else
      var h, c := HeaderAt(pkt), Cursor(HFIXEDSZ, NoError);
      var d := TakeQuestion(pkt, c);
      if d.err != NoError || !GoodQuestion(QuestionAt(pkt, c), w) then EINVAL
      else if Flag(h.flags, TC_MASK) && !igntc then EOVERFLOW
      else
        var e := TakeRrs(pkt, d, Records(h));
        if e.err != NoError then e.err
        else if e.offset != |pkt| then EMSGSIZE
        else NoError
  }

  // The header of an answer, byte by byte: the id, the response bit, opcode 0, the reserved
  // bit clear, and one question.
  ghost predicate AnswerHeader(pkt: seq<byte>, w: Wanted) {
    && |pkt| >= 12
    && pkt[0] as int * 256 + pkt[1] as int == w.reqid
    && pkt[2] >= 128 && pkt[2] / 8 % 16 == 0 && pkt[3] / 64 % 2 == 0
    && pkt[4] == 0 && pkt[5] == 1
  }

  ghost predicate Truncated(pkt: seq<byte>)
    requires |pkt| >= 12
  {
    pkt[2] / 2 % 2 == 1
  }

  // How many records the header announces in its three sections.
  ghost function Announced(pkt: seq<byte>): nat
    requires |pkt| >= 12
  {
    (pkt[6] as int * 256 + pkt[7] as int) + (pkt[8] as int * 256 + pkt[9] as int) + (pkt[10] as int * 256 + pkt[11] as int)
  }

  // The question that ends at b has the name, the type and the class wanted.
  ghost predicate AskedTo(pkt: seq<byte>, b: nat, w: Wanted) {
    && QuestionFrom(pkt, 12, b)
    && pkt[b - 4] as int * 256 + pkt[b - 3] as int == w.typ && pkt[b - 2] as int * 256 + pkt[b - 1] as int == w.cls
    && CaseEqual(CString(Wire(QuestionEnding(pkt, 12, b).name)), CString(w.dname))
  }

  // An answer to what was asked, made up of a header, the question and whole records.
  ghost predicate GoodAnswer(pkt: seq<byte>, w: Wanted, igntc: bool) {
    AnswerHeader(pkt, w) && (igntc || !Truncated(pkt)) &&
    exists os: seq<nat> :: Chain(pkt, os) && |os| == Announced(pkt) + 1 && os[|os| - 1] == |pkt| && AskedTo(pkt, os[0], w)
  }

  lemma {:induction false} HeaderMeaning(pkt: seq<byte>, w: Wanted)
    requires |pkt| >= 12
    ensures GoodHeader(HeaderAt(pkt), w) <==> AnswerHeader(pkt, w)
    ensures Flag(HeaderAt(pkt).flags, TC_MASK) <==> Truncated(pkt)
    ensures Records(HeaderAt(pkt)) == Announced(pkt)
  {
    hide Flag, Opcode;
    assert pkt[0..2] == [pkt[0], pkt[1]] && pkt[2..4] == [pkt[2], pkt[3]] && pkt[4..6] == [pkt[4], pkt[5]];
    assert pkt[6..8] == [pkt[6], pkt[7]] && pkt[8..10] == [pkt[8], pkt[9]] && pkt[10..12] == [pkt[10], pkt[11]];
    FlagBits(pkt[2], pkt[3]);
  }

  lemma {:induction false} FlagBits(a: byte, b: byte)
    ensures var f := 256 * a as int + b as int;
            && (Flag(f, QR_MASK) <==> a >= 128) && (Flag(f, TC_MASK) <==> a / 2 % 2 == 1)
            && (Flag(f, Z_MASK) <==> b / 64 % 2 == 1) && Opcode(f) == a as int / 8 % 16
  {
    var f, x, y := 256 * a as int + b as int, a as int, b as int;
    Modular.ModUnique(f, 0x8000, x / 128, x % 128 * 256 + y);
    Modular.ModUnique(f, 0x200, x / 2, x % 2 * 256 + y);
    Modular.ModUnique(f, 0x40, 4 * x + y / 64, y % 64);
    Modular.ModUnique(f, 0x800, x / 8, x % 8 * 256 + y);
  }

  lemma {:induction false} AskedMeaning(pkt: seq<byte>, b: nat, w: Wanted)
    requires QuestionFrom(pkt, 12, b)
    ensures GoodQuestion(QuestionEnding(pkt, 12, b), w) <==> AskedTo(pkt, b, w)
  {
    hide CaseEqual, CString, Wire, NameEnd;
    assert pkt[b - 4..b - 2][0] == pkt[b - 4] && pkt[b - 4..b - 2][1] == pkt[b - 3];
    assert pkt[b - 2..b][0] == pkt[b - 2] && pkt[b - 2..b][1] == pkt[b - 1];
  }

  lemma {:induction false} QuestionEndingHere(pkt: seq<byte>, a: nat)
    requires a <= |pkt| && TakeQuestion(pkt, Cursor(a, NoError)).err == NoError
    ensures var b := TakeQuestion(pkt, Cursor(a, NoError)).offset;
            QuestionFrom(pkt, a, b) && QuestionEnding(pkt, a, b) == QuestionAt(pkt, Cursor(a, NoError))
  {
    hide TakeQuestion, NameEnd;
    QuestionMeaning(pkt, a);
  }

  // A packet is accepted exactly if it is an answer with no byte left over.
  lemma {:induction false} AcceptedIsGood(pkt: seq<byte>, w: Wanted, igntc: bool)
    ensures Validate(pkt, w, igntc) == NoError <==> GoodAnswer(pkt, w, igntc)
  {
    hide TakeQuestion, QuestionAt, QuestionFrom, QuestionEnding, TakeRr, TakeRrs, GoodHeader, GoodQuestion, Chain, Flag, AskedTo, Truncated, HeaderAt, Announced, Records;
    if |pkt| >= HFIXEDSZ {
      HeaderMeaning(pkt, w);
      var h, c := HeaderAt(pkt), Cursor(HFIXEDSZ, NoError);
      var d := TakeQuestion(pkt, c);
      QuestionMeaning(pkt, HFIXEDSZ);
      if d.err == NoError {
        QuestionEndingHere(pkt, HFIXEDSZ);
        AskedMeaning(pkt, d.offset, w);
        if TakeRrs(pkt, d, Records(h)).err == NoError {
          var os := RrsAreAChain(pkt, d, Records(h));
        }
        forall os: seq<nat> | Chain(pkt, os) && |os| == Records(h) + 1 && AskedTo(pkt, os[0], w)
          ensures os[0] == d.offset && TakeRrs(pkt, d, Records(h)) == Cursor(os[|os| - 1], NoError)
        {
          AskedFrom(pkt, os[0], w);
          OneEnd(pkt, HFIXEDSZ, os[0], d.offset);
          ChainIsRrs(pkt, os, Records(h));
        }
      } else {
        forall b | AskedTo(pkt, b, w)
          ensures QuestionFrom(pkt, HFIXEDSZ, b)
        {
          AskedFrom(pkt, b, w);
        }
      }
    }
  }

  lemma {:induction false} AskedFrom(pkt: seq<byte>, b: nat, w: Wanted)
    requires AskedTo(pkt, b, w)
    ensures QuestionFrom(pkt, HFIXEDSZ, b)
  {
    hide CaseEqual, CString, Wire, NameEnd;
  }

  // A truncated answer with the right header and question is told from a bad one.
  lemma {:induction false} TruncatedIsTold(pkt: seq<byte>, b: nat, w: Wanted)
    requires AnswerHeader(pkt, w) && Truncated(pkt) && AskedTo(pkt, b, w)
    ensures Validate(pkt, w, false) == EOVERFLOW
  {
    hide TakeQuestion, QuestionAt, QuestionFrom, QuestionEnding, TakeRrs, GoodHeader, GoodQuestion, Flag, AskedTo, Truncated, HeaderAt;
    HeaderMeaning(pkt, w);
    QuestionMeaning(pkt, HFIXEDSZ);
    AskedFrom(pkt, b, w);
    QuestionEndingHere(pkt, HFIXEDSZ);
    OneEnd(pkt, HFIXEDSZ, b, TakeQuestion(pkt, Cursor(HFIXEDSZ, NoError)).offset);
    AskedMeaning(pkt, b, w);
  }

  lemma {:induction false} OneEnd(pkt: seq<byte>, a: nat, b: nat, c: nat)
    requires QuestionFrom(pkt, a, b) && QuestionFrom(pkt, a, c)
    ensures b == c
  {
    hide NameEnd;
  }

  // The question of an accepted answer (see AcceptedIsGood) names what the query named, up
  // to case.
  lemma {:induction false} AcceptedNames(q: Question, w: Wanted, name: seq<Label>)
    requires ValidName(q.name) && GoodQuestion(q, w) && TextName(name) && ValidName(name) && Wire(name) <= w.dname
    ensures SameName(q.name, name) && q.typ == w.typ && q.cls == w.cls
  {
    hide CaseEqual, Wire, IndexOf;
    StringPrefix(name, w.dname);
    StringsAreNames(q.name, name);
  }

  lemma {:induction false} QuestionValid(pkt: seq<byte>, c: Cursor)
    requires Within(pkt, c) && TakeQuestion(pkt, c).err == NoError
    ensures ValidName(QuestionAt(pkt, c).name)
  {
  }

  lemma {:induction false} StringPrefix(q: seq<Label>, dname: seq<byte>)
    requires TextName(q) && ValidName(q) && Wire(q) <= dname
    ensures CString(dname) == CString(Wire(q))
  {
    hide IndexOf, WireBody;
    WireString(q, dname);
    WireString(q, Wire(q));
  }

  // validate_packet, with the response code and answer count it notes on the way
  method ValidatePacket(pkt: seq<byte>, w: Wanted, igntc: bool) returns (e: Errno, noted: bool, rcode: nat, ancount: nat)
    requires 0 in w.dname
    ensures e == Validate(pkt, w, igntc)
    ensures noted <==> |pkt| >= HFIXEDSZ && GoodHeader(HeaderAt(pkt), w)
    ensures noted ==> rcode == HeaderAt(pkt).flags % 16 && ancount == HeaderAt(pkt).ancount
  {
    hide TakeQuestion, QuestionAt, TakeRr, HeaderAt, CaseEqual, CString, Wire;
    noted, rcode, ancount := false, 0, 0;
    var p := new Unpack(pkt);
    assert pkt[0..] == pkt;
    var h := p.Header();
    if p.err != NoError { return EINVAL, noted, rcode, ancount; }
    if h.id != w.reqid { return EINVAL, noted, rcode, ancount; }
    if h.qdcount != 1 { return EINVAL, noted, rcode, ancount; }
    if Flag(h.flags, Z_MASK) { return EINVAL, noted, rcode, ancount; }
    if Opcode(h.flags) != OP_QUERY { return EINVAL, noted, rcode, ancount; }
    if !Flag(h.flags, QR_MASK) { return EINVAL, noted, rcode, ancount; }
    noted, rcode, ancount := true, h.flags % 16, h.ancount;
    ghost var c := p.Cur();
    var dname, typ, cls := p.Query();
    if p.err != NoError { return EINVAL, noted, rcode, ancount; }
    WireEnds(pkt, c, dname);
    if typ != w.typ || cls != w.cls { return EINVAL, noted, rcode, ancount; }
    var equal := StrCaseEqual(dname, w.dname);
    if !equal { return EINVAL, noted, rcode, ancount; }
    if Flag(h.flags, TC_MASK) && !igntc { return EOVERFLOW, noted, rcode, ancount; }
    ghost var d := p.Cur();
    var r := h.ancount + h.nscount + h.arcount;
    while r != 0
      invariant 0 <= r <= Records(h) && p.Valid() && p.buf == pkt
      invariant TakeRrs(pkt, p.Cur(), r) == TakeRrs(pkt, d, Records(h))
    {
      var dn, t, k, ttl, rd := p.Rr();
      r := r - 1;
    }
    if p.err != NoError { return p.err, noted, rcode, ancount; }
    if p.offset != |pkt| { return EMSGSIZE, noted, rcode, ancount; }
    e := NoError;
  }

  // A buffer that starts with a wire name holds a C string within it.
  lemma {:induction false} WireEnds(pkt: seq<byte>, c: Cursor, dname: seq<byte>)
    requires Within(pkt, c) && TakeQuestion(pkt, c).err == NoError && Wire(QuestionAt(pkt, c).name) <= dname
    ensures 0 in dname && CString(dname) == CString(Wire(QuestionAt(pkt, c).name))
  {
    hide TakeQuestion, QuestionAt, WireBody;
    QuestionValid(pkt, c);
    var w := Wire(QuestionAt(pkt, c).name);
    assert w[|w| - 1] == 0 && dname[|w| - 1] == 0;
    StringInPrefix(w, dname);
  }

  lemma {:induction false} StringInPrefix(w: seq<byte>, s: seq<byte>)
    requires w <= s && 0 in w
    ensures CString(w) == CString(s)
  {
    var n := IndexOf(w, 0);
    Before(w, n);
    assert w[..n] == s[..n];
    FirstZero(s, n);
  }

  /*** Building a query ***/

  // The string strlcpy leaves in a buffer of n bytes, and strlcat with a prefix in it.
  function Strlcat(prefix: seq<byte>, src: seq<byte>, n: nat): (s: seq<byte>)
    requires |prefix| < n
    ensures |s| < n
  {
    prefix + src[..Min(|src|, n - 1 - |prefix|)]
  }

  // _asr_make_fqdn: the returned length and the string in the buffer. A domain that is
  // refused leaves the buffer alone, here empty.
  function MakeFqdn(name: seq<byte>, domain: Option<seq<byte>>, buflen: nat): (r: (nat, seq<byte>))
    requires buflen > 0
  {
    var dom := if domain.None? then [DOT] else domain.value;
    if dom == [] || dom[|dom| - 1] != DOT then (0, [])
    else if name == [] then CopyFqdn(dom, buflen)
    else if name[|name| - 1] != DOT then JoinFqdn(name, if dom[0] == DOT then dom[1..] else dom, buflen)
    else CopyFqdn(name, buflen)
  }

  function CopyFqdn(src: seq<byte>, buflen: nat): (r: (nat, seq<byte>))
    requires buflen > 0
  {
    var b := Strlcat([], src, buflen);
    if |src| >= buflen then (0, b) else (|b|, b)
  }

  function JoinFqdn(name: seq<byte>, dom: seq<byte>, buflen: nat): (r: (nat, seq<byte>))
    requires buflen > 0
  {
    var b := Strlcat([], name, buflen);
    if |name| >= buflen then (0, b)
    else
      var b' := Strlcat(b, [DOT], buflen);
      if |b| + 1 >= buflen then (0, b')
      else
        var b'' := Strlcat(b', dom, buflen);
        if |b'| + |dom| >= buflen then (0, b'') else (|b''|, b'')
  }

  // What the name stands for in full.
  function FullName(name: seq<byte>, dom: seq<byte>): seq<byte>
    requires dom != []
  {
    if name == [] then dom
    else if name[|name| - 1] == DOT then name
    else name + [DOT] + if dom[0] == DOT then dom[1..] else dom
  }

  // A name and its length if it fits into buflen bytes, otherwise its beginning and zero.
  ghost predicate CutTo(r: (nat, seq<byte>), full: seq<byte>, buflen: nat) {
    if |full| < buflen then r == (|full|, full) else r.0 == 0 && |r.1| == buflen - 1 && r.1 <= full
  }

  // The result is the full name, which ends in a dot, or zero.
  lemma {:induction false} MakeFqdnIsFull(name: seq<byte>, domain: Option<seq<byte>>, buflen: nat)
    requires buflen > 0
    ensures var dom := if domain.None? then [DOT] else domain.value;
            if dom == [] || dom[|dom| - 1] != DOT then MakeFqdn(name, domain, buflen).0 == 0
            else FullName(name, dom) != [] && FullName(name, dom)[|FullName(name, dom)| - 1] == DOT
                 && CutTo(MakeFqdn(name, domain, buflen), FullName(name, dom), buflen)
  {
    hide CopyFqdn, JoinFqdn, CutTo;
    var dom := if domain.None? then [DOT] else domain.value;
    if dom != [] && dom[|dom| - 1] == DOT {
      if name == [] {
        CopyIsFull(dom, buflen);
      } else if name[|name| - 1] != DOT {
        var dom' := if dom[0] == DOT then dom[1..] else dom;
        JoinIsFull(name, dom', buflen);
        assert dom' == [] || dom'[|dom'| - 1] == DOT;
      } else {
        CopyIsFull(name, buflen);
      }
    }
  }

  lemma {:induction false} CopyIsFull(src: seq<byte>, buflen: nat)
    requires buflen > 0
    ensures CutTo(CopyFqdn(src, buflen), src, buflen)
  {
    hide Strlcat;
    StrlcatCuts([], src, buflen);
    assert [] + src == src;
  }

  lemma {:induction false} JoinIsFull(name: seq<byte>, dom: seq<byte>, buflen: nat)
    requires buflen > 0
    ensures CutTo(JoinFqdn(name, dom, buflen), name + [DOT] + dom, buflen)
  {
    hide Strlcat;
    StrlcatCuts([], name, buflen);
    assert [] + name == name;
    if |name| < buflen {
      StrlcatCuts(name, [DOT], buflen);
      if |name| + 1 < buflen { StrlcatCuts(name + [DOT], dom, buflen); }
    }
  }

  lemma {:induction false} StrlcatCuts(prefix: seq<byte>, src: seq<byte>, n: nat)
    requires |prefix| < n
    ensures var s := Strlcat(prefix, src, n);
            s <= prefix + src && |s| == Min(|prefix| + |src|, n - 1)
            && (|prefix| + |src| < n ==> s == prefix + src)
  {
  }

  // The ac_options that matter for a query.
  datatype Options = Options(recurse: bool, useCd: bool, trustAd: bool, edns0: bool, dnssec: bool)

  function Edns(o: Options): bool {
    o.edns0 || o.dnssec
  }

  function QueryHeader(id: nat, o: Options): (h: DnsHeader)
    requires id < 0x1_0000
    ensures ValidHeader(h) && h.flags < 0x1000
  {
    var flags := (if o.recurse then RD_MASK else 0) + (if o.useCd then CD_MASK else 0) + (if o.trustAd then AD_MASK else 0);
    DnsHeader(id, flags, 1, 0, 0, if Edns(o) then 1 else 0)
  }

  function QueryTail(q: Question, o: Options): seq<byte>
    requires (forall i :: 0 <= i < |q.name| ==> ValidLabel(q.name[i])) && q.typ < 0x1_0000 && q.cls < 0x1_0000
  {
    QuestionBytes(q) + if Edns(o) then OptBytes(MAXPACKETSZ, o.dnssec) else []
  }

  // setup_query, for a query whose output buffer is allocated here: it succeeds exactly on
  // names of valid labels that fit into the packet, and then it has built that packet.
  method SetupQuery(name: seq<byte>, cls: nat, typ: nat, id: nat, o: Options)
    returns (ok: bool, obuf: array<byte>, obuflen: nat, w: Wanted)
    requires 0 !in name && cls < 0x1_0000 && typ < 0x1_0000 && id < 0x1_0000
    ensures var labels := FqdnLabels(FullName(name, [DOT]));
            ok <==> labels.Some? && HFIXEDSZ + |Wire(labels.value)| + 4 + (if Edns(o) then 11 else 0) <= PACKETSZ
    ensures ok ==>
              var ls := FqdnLabels(FullName(name, [DOT])).value;
              TextName(ls) && Wire(ls) <= w.dname && w == Wanted(id, typ, cls, w.dname) && obuflen <= obuf.Length
              && obuf[..obuflen] == HeaderBytes(QueryHeader(id, o)) + QueryTail(Question(ls, typ, cls), o)
  {
    hide FqdnLabels, WireBody, HeaderBytes, OptBytes, Net16, MakeFqdn;
    obuf := new byte[PACKETSZ](i => 0);
    obuflen, w := 0, Wanted(id, typ, cls, []);
    var (len, fqdn) := MakeFqdn(name, None, MAXDNAME);
    MakeFqdnIsFull(name, None, MAXDNAME);
    ghost var full := FullName(name, [DOT]);
    if len > MAXDNAME { return false, obuf, obuflen, w; }
    assert 0 !in full && 0 !in fqdn;
    TextOfFqdn(full);
    TextOfFqdn(fqdn);
    var dname := new byte[MAXDNAME](i => 0);
    var n := FromFqdn(fqdn, dname);
    if n == -1 { return false, obuf, obuflen, w; }
    ghost var ls := FqdnLabels(fqdn).value;
    assert Wire(ls) <= dname[..] by { assert dname[..][..|Wire(ls)|] == Wire(ls); }
    var p := new Pack(obuf);
    p.Header(QueryHeader(id, o));
    p.Query(typ, cls, dname[..], ls);
    if Edns(o) {
      p.Edns0(MAXPACKETSZ, o.dnssec);
    }
    if p.err != NoError { return false, obuf, obuflen, w; }
    w := Wanted(id, typ, cls, dname[..]);
    obuflen := p.offset;
    ok := true;
    PacketParts(HeaderBytes(QueryHeader(id, o)), QuestionBytes(Question(ls, typ, cls)), OptBytes(MAXPACKETSZ, o.dnssec));
  }

  lemma {:induction false} TextOfFqdn(s: seq<byte>)
    requires 0 !in s && s != []
    ensures FqdnLabels(s).Some? ==>
              var ls := FqdnLabels(s).value;
              TextName(ls) && ValidName(ls) && s == Text(ls) && |Wire(ls)| == if ls == [] then 1 else |s| + 1
  {
    hide FqdnLabels, WireBody;
    if FqdnLabels(s).Some? {
      var ls := FqdnLabels(s).value;
      FqdnIsText(s, ls);
      NoZero(ls);
      WireLength(ls);
      RootWire();
    }
  }

  // A name from text to wire, packed and unpacked as a question, and back to text: for every
  // name that is accepted and fits the resolver's buffers, nothing is changed.
  method NameRoundTrip(str: seq<byte>, typ: nat, cls: nat) returns (ok: bool, text: seq<byte>, typ': nat, cls': nat)
    requires 0 !in str && str != [] && typ < 0x1_0000 && cls < 0x1_0000
    ensures ok <==> FqdnLabels(str).Some? && |Wire(FqdnLabels(str).value)| <= MAXDNAME
    ensures ok ==> text == str && typ' == typ && cls' == cls
  {
    hide FqdnLabels, WireBody, TakeName, Expand, Net16, Num16;
    ok, text, typ', cls' := false, [], 0, 0;
    var dst := new byte[MAXDNAME](i => 0);
    var n := FromFqdn(str, dst);
    TextOfFqdn(str);
    if n == -1 || n > MAXDNAME { return; }
    ghost var ls := FqdnLabels(str).value;
    var dname := dst[..];
    assert dname[..|Wire(ls)|] == Wire(ls);
    var room := new byte[n + 4](i => 0);
    var p := new Pack(room);
    p.Query(typ, cls, dname, ls);
    var packet := p.buf[..p.offset];
    ghost var q := Question(ls, typ, cls);
    assert packet == [] + QuestionBytes(q) + [];
    QuestionRoundTrip([], q, []);
    var u := new Unpack(packet);
    var name;
    name, typ', cls' := u.Query();
    var buf := new byte[|str| + 1](i => 0);
    var len := ToText(name, buf, ls);
    ShownFits(Text(ls), |str|);
    text := buf[..len];
    ok := true;
  }

  lemma {:induction false} PacketParts(a: seq<byte>, b: seq<byte>, c: seq<byte>)
    ensures [] + a + b == a + (b + []) && [] + a + b + c == a + (b + c)
  {
    Assoc(a, b, c);
    assert [] + a == a && b + [] == b;
  }

  /*** The packet of a query ***/

  // The packet of a query, byte by byte: the id, the flags RD, AD and CD as asked for, one
  // question, and with EDNS0 one additional record that announces 4096 bytes.
  lemma {:induction false} QueryLayout(id: nat, ls: seq<Label>, typ: nat, cls: nat, o: Options)
    requires id < 0x1_0000 && typ < 0x1_0000 && cls < 0x1_0000 && ValidName(ls)
    ensures HeaderBytes(QueryHeader(id, o)) ==
              [id / 256, id % 256, if o.recurse then 1 else 0, (if o.trustAd then 32 else 0) + (if o.useCd then 16 else 0),
               0, 1, 0, 0, 0, 0, 0, if o.edns0 || o.dnssec then 1 else 0]
    ensures QueryTail(Question(ls, typ, cls), o) ==
              Wire(ls) + [typ / 256, typ % 256, cls / 256, cls % 256] +
              if o.edns0 || o.dnssec then [0, 0, 41, 16, 0, 0, 0, if o.dnssec then 128 else 0, 0, 0, 0] else []
  {
    hide Wire;
    QueryFlagBytes(o);
    assert Net16(typ) + Net16(cls) == [typ / 256, typ % 256, cls / 256, cls % 256];
    Assoc(Wire(ls), Net16(typ), Net16(cls));
  }

  lemma {:induction false} QueryFlagBytes(o: Options)
    ensures var f := QueryHeader(0, o).flags;
            f / 256 == (if o.recurse then 1 else 0) && f % 256 == (if o.trustAd then 32 else 0) + (if o.useCd then 16 else 0)
  {
  }

  // Letters match without regard to case, other bytes only themselves.
  lemma {:induction false} CaseMeaning(a: byte, b: byte)
    ensures CaseEqual([a], [b]) <==> a == b || (65 <= a <= 90 && b as int == a as int + 32) || (65 <= b <= 90 && a as int == b as int + 32)
  {
    assert [a][0] == a && [b][0] == b;
  }

  /*** The query as its own answer ***/

  lemma {:induction false} AnswerFlags(flags: nat)
    requires flags < 0x1000 && flags % 0x10 == 0 && !Flag(flags, Z_MASK) && !Flag(flags, TC_MASK) && flags / 0x800 == 0
    ensures var f := flags + QR_MASK;
            f < 0x1_0000 && Flag(f, QR_MASK) && !Flag(f, Z_MASK) && !Flag(f, TC_MASK) && Opcode(f) == OP_QUERY
  {
  }

  lemma {:induction false} QueryFlags(id: nat, o: Options)
    requires id < 0x1_0000
    ensures var flags := QueryHeader(id, o).flags;
            flags % 0x10 == 0 && !Flag(flags, Z_MASK) && !Flag(flags, TC_MASK) && flags / 0x800 == 0
  {
  }

  // The packet of a query, with the response bit set, is accepted as the answer to it.
  lemma {:induction false} OwnAnswerAccepted(ls: seq<Label>, typ: nat, cls: nat, id: nat, o: Options, dname: seq<byte>, igntc: bool)
    requires TextName(ls) && ValidName(ls) && |Wire(ls)| <= MAXDNAME && Wire(ls) <= dname
    requires typ < 0x1_0000 && cls < 0x1_0000 && id < 0x1_0000
    ensures var h := QueryHeader(id, o);
            ValidHeader(h.(flags := h.flags + QR_MASK)) &&
            Validate(HeaderBytes(h.(flags := h.flags + QR_MASK)) + QueryTail(Question(ls, typ, cls), o), Wanted(id, typ, cls, dname), igntc) == NoError
  {
    hide WireBody, HeaderBytes, OptBytes, QuestionBytes, TakeQuestion, QuestionAt, TakeRr, HeaderAt, IndexOf, Flag, Opcode;
    QueryFlags(id, o);
    var h0, q, w := QueryHeader(id, o), Question(ls, typ, cls), Wanted(id, typ, cls, dname);
    AnswerFlags(h0.flags);
    var h := h0.(flags := h0.flags + QR_MASK);
    var head, opt := HeaderBytes(h), if Edns(o) then OptBytes(MAXPACKETSZ, o.dnssec) else [];
    var pkt := head + QueryTail(q, o);
    HeaderReadBack(h, QueryTail(q, o));
    assert pkt == head + QuestionBytes(q) + opt;
    QuestionRoundTrip(head, q, opt);
    StringPrefix(ls, dname);
    if Edns(o) {
      OptAccepted(head + QuestionBytes(q), MAXPACKETSZ, o.dnssec);
      OneRecord(pkt, Cursor(|head| + |QuestionBytes(q)|, NoError));
    }
  }

  lemma {:induction false} OneRecord(pkt: seq<byte>, c: Cursor)
    requires Within(pkt, c)
    ensures TakeRrs(pkt, c, 1) == TakeRr(pkt, c)
  {
    hide TakeRr;
    assert TakeRrs(pkt, TakeRr(pkt, c), 0) == TakeRr(pkt, c);
  }
}
