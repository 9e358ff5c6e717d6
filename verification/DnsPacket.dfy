/** DNS packets in the resolver (openbsd-compat/libasr/asr_utils.c): the cursors that pack
    and unpack headers, questions and resource records. */
module DnsPacket {
  import opened Common
  import opened Dname

  const MAXDNAME: nat := 1025
  const HFIXEDSZ: nat := 12

  const T_A: nat := 1
  const T_NS: nat := 2
  const T_CNAME: nat := 5
  const T_SOA: nat := 6
  const T_PTR: nat := 12
  const T_MX: nat := 15
  const T_AAAA: nat := 28
  const T_OPT: nat := 41
  const C_IN: nat := 1

  // The errors the resolver tells apart.
  datatype Errno = NoError | EOVERFLOW | EINVAL | ERANGE | EMSGSIZE | ENOMEM | ECONNRESET | ECONNREFUSED | ETIMEDOUT | Other

  // Host-order fields of the header; id is kept as it stands in the packet.
  datatype DnsHeader = DnsHeader(id: nat, flags: nat, qdcount: nat, ancount: nat, nscount: nat, arcount: nat)

  datatype Question = Question(name: seq<Label>, typ: nat, cls: nat)

  /*** Numbers in network byte order ***/

  function Num16(s: seq<byte>): (n: nat)
    requires |s| == 2
    ensures n < 0x1_0000
  {
    256 * s[0] as int + s[1] as int
  }

  function Net16(n: nat): (s: seq<byte>)
    requires n < 0x1_0000
    ensures |s| == 2 && Num16(s) == n
  {
    [n / 256, n % 256]
  }

  function Num32(s: seq<byte>): (n: nat)
    requires |s| == 4
    ensures n == 16777216 * s[0] as int + 65536 * s[1] as int + 256 * s[2] as int + s[3] as int
  {
    0x1_0000 * Num16(s[..2]) + Num16(s[2..])
  }

  function Flag(flags: nat, bit: nat): bool
    requires bit > 0
  {
    flags / bit % 2 == 1
  }

  predicate ValidHeader(h: DnsHeader) {
    h.id < 0x1_0000 && h.flags < 0x1_0000 && h.qdcount < 0x1_0000
    && h.ancount < 0x1_0000 && h.nscount < 0x1_0000 && h.arcount < 0x1_0000
  }

  function HeaderBytes(h: DnsHeader): (s: seq<byte>)
    requires ValidHeader(h)
    ensures |s| == HFIXEDSZ
  {
    Net16(h.id) + Net16(h.flags) + Net16(h.qdcount) + Net16(h.ancount) + Net16(h.nscount) + Net16(h.arcount)
  }

  function HeaderAt(s: seq<byte>): (h: DnsHeader)
    requires |s| >= HFIXEDSZ
    ensures ValidHeader(h)
  {
    DnsHeader(Num16(s[0..2]), Num16(s[2..4]), Num16(s[4..6]), Num16(s[6..8]), Num16(s[8..10]), Num16(s[10..12]))
  }

  lemma {:induction false} HeaderReadBack(h: DnsHeader, rest: seq<byte>)
    requires ValidHeader(h)
    ensures HeaderAt(HeaderBytes(h) + rest) == h
  {
    hide Net16, Num16;
    var s := HeaderBytes(h) + rest;
    assert s[0..2] == Net16(h.id) && s[2..4] == Net16(h.flags) && s[4..6] == Net16(h.qdcount);
    assert s[6..8] == Net16(h.ancount) && s[8..10] == Net16(h.nscount) && s[10..12] == Net16(h.arcount);
  }

  /*** Where reading leads ***/

  // The position and error of struct asr_unpack.
  datatype Cursor = Cursor(offset: nat, err: Errno)

  predicate Within(buf: seq<byte>, c: Cursor) {
    c.offset <= |buf|
  }

  // unpack_data
  function Take(buf: seq<byte>, c: Cursor, n: nat): (d: Cursor)
    requires Within(buf, c)
    ensures Within(buf, d) && c.offset <= d.offset && (c.err != NoError ==> d == c)
  {
    if c.err != NoError then c
    else if |buf| - c.offset < n then c.(err := EOVERFLOW)
    else c.(offset := c.offset + n)
  }

  function NameAt(buf: seq<byte>, off: nat): Option<seq<Label>> {
    if off >= |buf| then None else Expand(buf, off, off)
  }

  // unpack_dname
  function TakeName(buf: seq<byte>, c: Cursor): (d: Cursor)
    requires Within(buf, c)
    ensures Within(buf, d) && c.offset <= d.offset && (c.err != NoError ==> d == c)
  {
    if c.err != NoError then c
    else
      match NameAt(buf, c.offset)
      case None => c.(err := EINVAL)
      case Some(ls) =>
        EndBounds(buf, c.offset, c.offset);
        Cursor(FinalEnd(buf, c.offset, c.offset), if |Wire(ls)| > MAXDNAME then ERANGE else NoError)
  }

  // _asr_unpack_query
  function TakeQuestion(buf: seq<byte>, c: Cursor): (d: Cursor)
    requires Within(buf, c)
    ensures Within(buf, d) && (c.err != NoError ==> d == c)
  {
    Take(buf, Take(buf, TakeName(buf, c), 2), 2)
  }

  function QuestionAt(buf: seq<byte>, c: Cursor): Question
    requires Within(buf, c) && TakeQuestion(buf, c).err == NoError
  {
    var d := TakeQuestion(buf, c);
    Question(NameAt(buf, c.offset).value, Num16(buf[d.offset - 4..d.offset - 2]), Num16(buf[d.offset - 2..d.offset]))
  }

  // The fixed part of a resource record: owner, type, class, time to live, data length.
  function TakeRrHead(buf: seq<byte>, c: Cursor): (d: Cursor)
    requires Within(buf, c)
    ensures Within(buf, d) && (c.err != NoError ==> d == c)
    ensures d.err == NoError ==> d.offset >= 10
  {
    Take(buf, Take(buf, Take(buf, Take(buf, TakeName(buf, c), 2), 2), 4), 2)
  }

  function TakeSoa(buf: seq<byte>, c: Cursor): (d: Cursor)
    requires Within(buf, c)
    ensures Within(buf, d) && (c.err != NoError ==> d == c)
  {
    Take(buf, Take(buf, Take(buf, Take(buf, Take(buf, TakeName(buf, TakeName(buf, c)), 4), 4), 4), 4), 4)
  }

  // The data of a resource record, by type.
  function TakeRdata(buf: seq<byte>, c: Cursor, typ: nat, cls: nat, rdlen: nat): (d: Cursor)
    requires Within(buf, c) && c.err == NoError && rdlen <= |buf| - c.offset
    ensures Within(buf, d)
  {
    if typ == T_CNAME || typ == T_NS || typ == T_PTR then TakeName(buf, c)
    else if typ == T_MX then TakeName(buf, Take(buf, c, 2))
    else if typ == T_SOA then TakeSoa(buf, c)
    else if typ == T_A && cls == C_IN then Take(buf, c, 4)
    else if typ == T_AAAA && cls == C_IN then Take(buf, c, 16)
    else c.(offset := c.offset + rdlen)
  }

  // _asr_unpack_rr: the data must fill exactly the advertised length.
  function TakeRr(buf: seq<byte>, c: Cursor): (d: Cursor)
    requires Within(buf, c)
    ensures Within(buf, d) && (c.err != NoError ==> d == c)
  {
    var h := TakeRrHead(buf, c);
    if h.err != NoError then h
    else
      var typ, cls, rdlen := Num16(buf[h.offset - 10..h.offset - 8]), Num16(buf[h.offset - 8..h.offset - 6]), Num16(buf[h.offset - 2..h.offset]);
      if |buf| - h.offset < rdlen then h.(err := EOVERFLOW)
      else
        var d := TakeRdata(buf, h, typ, cls, rdlen);
        if d.err != NoError then d
        else if d.offset - h.offset != rdlen then d.(err := EINVAL)
        else d
  }

  function TakeRrs(buf: seq<byte>, c: Cursor, n: nat): (d: Cursor)
    requires Within(buf, c)
    ensures Within(buf, d) && (c.err != NoError ==> d == c)
    decreases n
  {
    if n == 0 then c else TakeRrs(buf, TakeRr(buf, c), n - 1)
  }

  /*** What questions and records look like ***/

  // Where a name at p ends, if there is one that fits into MAXDNAME bytes.
  function NameEnd(buf: seq<byte>, p: nat): (e: Option<nat>)
    ensures e.Some? ==> p < e.value <= |buf|
  {
    match NameAt(buf, p)
    case None => None
    case Some(ls) =>
      EndBounds(buf, p, p);
      if |Wire(ls)| > MAXDNAME then None else Some(FinalEnd(buf, p, p))
  }

  lemma {:induction false} NameMeaning(buf: seq<byte>, p: nat)
    requires p <= |buf|
    ensures var d := TakeName(buf, Cursor(p, NoError));
            if d.err == NoError then NameEnd(buf, p) == Some(d.offset) else NameEnd(buf, p) == None
  {
    hide Expand, FinalEnd, WireBody;
  }

  // A question from a to b: a name, two bytes of type and two of class.
  ghost predicate QuestionFrom(buf: seq<byte>, a: nat, b: nat) {
    4 <= b <= |buf| && NameEnd(buf, a) == Some(b - 4)
  }

  function QuestionEnding(buf: seq<byte>, a: nat, b: nat): (q: Question)
    requires QuestionFrom(buf, a, b)
    ensures ValidName(q.name)
  {
    Question(NameAt(buf, a).value, Num16(buf[b - 4..b - 2]), Num16(buf[b - 2..b]))
  }

  lemma {:induction false} QuestionMeaning(buf: seq<byte>, a: nat)
    requires a <= |buf|
    ensures var d := TakeQuestion(buf, Cursor(a, NoError));
            if d.err == NoError then QuestionFrom(buf, a, d.offset) else forall b :: !QuestionFrom(buf, a, b)
  {
    hide TakeName, NameEnd;
    NameMeaning(buf, a);
  }

  // The data of a record of a type and class fills p to b: a name (CNAME, NS, PTR); a
  // preference and a name (MX); two names and five numbers (SOA); an address of class IN (A,
  // AAAA); or anything.
  ghost predicate DataFits(buf: seq<byte>, p: nat, b: nat, typ: nat, cls: nat) {
    if typ in {5, 2, 12} then NameEnd(buf, p) == Some(b)
    else if typ == 15 then NameEnd(buf, p + 2) == Some(b)
    else if typ == 6 then NameEnd(buf, p).Some? && 20 <= b && NameEnd(buf, NameEnd(buf, p).value) == Some(b - 20)
    else if typ == 1 && cls == 1 then b == p + 4
    else if typ == 28 && cls == 1 then b == p + 16
    else true
  }

  // A record from a to b: a name, two bytes of type, two of class, four for the time to live,
  // two for the length of the data, and data of that length that fits the type.
  ghost predicate RecordFrom(buf: seq<byte>, a: nat, b: nat) {
    NameEnd(buf, a).Some? &&
    var e := NameEnd(buf, a).value;
    e + 10 <= b <= |buf| && b == e + 10 + Num16(buf[e + 8..e + 10]) && DataFits(buf, e + 10, b, Num16(buf[e..e + 2]), Num16(buf[e + 2..e + 4]))
  }

  lemma {:induction false} HeadMeaning(buf: seq<byte>, a: nat)
    requires a <= |buf|
    ensures var d := TakeRrHead(buf, Cursor(a, NoError));
            if d.err == NoError then NameEnd(buf, a) == Some(d.offset - 10)
            else NameEnd(buf, a).None? || NameEnd(buf, a).value + 10 > |buf|
  {
    hide TakeName, NameEnd;
    NameMeaning(buf, a);
  }

  lemma {:induction false} DataMeaning(buf: seq<byte>, p: nat, typ: nat, cls: nat, rdlen: nat)
    requires p + rdlen <= |buf|
    ensures TakeRdata(buf, Cursor(p, NoError), typ, cls, rdlen) == Cursor(p + rdlen, NoError) <==> DataFits(buf, p, p + rdlen, typ, cls)
  {
    hide TakeName, NameEnd;
    NameMeaning(buf, p);
    if p + 2 <= |buf| {
      NameMeaning(buf, p + 2);
    } else {
      NameBefore(buf, p + 2);
    }
    if NameEnd(buf, p).Some? {
      NameMeaning(buf, NameEnd(buf, p).value);
      NameBefore(buf, NameEnd(buf, p).value);
    }
  }

  lemma {:induction false} NameBefore(buf: seq<byte>, p: nat)
    ensures NameEnd(buf, p).Some? ==> p < NameEnd(buf, p).value <= |buf|
  {
  }

  // A record is read without error exactly if there is one, and up to its end.
  lemma {:induction false} RecordMeaning(buf: seq<byte>, a: nat, b: nat)
    requires a <= |buf|
    ensures TakeRr(buf, Cursor(a, NoError)) == Cursor(b, NoError) <==> RecordFrom(buf, a, b)
    ensures RecordFrom(buf, a, b) ==> a + 11 <= b <= |buf|
  {
    hide TakeName, TakeRrHead, NameEnd, DataFits, TakeRdata, Num16;
    HeadMeaning(buf, a);
    NameBefore(buf, a);
    var h := TakeRrHead(buf, Cursor(a, NoError));
    if h.err == NoError {
      var typ, cls, rdlen := Num16(buf[h.offset - 10..h.offset - 8]), Num16(buf[h.offset - 8..h.offset - 6]), Num16(buf[h.offset - 2..h.offset]);
      if rdlen <= |buf| - h.offset {
        DataMeaning(buf, h.offset, typ, cls, rdlen);
      }
    }
  }

  // Records lie one behind the other: os are the positions between n records.
  ghost predicate Chain(buf: seq<byte>, os: seq<nat>) {
    |os| > 0 && os[0] <= |buf| && forall k :: 0 <= k < |os| - 1 ==> RecordFrom(buf, os[k], os[k + 1])
  }

  lemma {:induction false} RrsAreAChain(buf: seq<byte>, c: Cursor, n: nat) returns (os: seq<nat>)
    requires Within(buf, c) && c.err == NoError && TakeRrs(buf, c, n).err == NoError
    ensures |os| == n + 1 && Chain(buf, os) && os[0] == c.offset && os[n] == TakeRrs(buf, c, n).offset
    decreases n
  {
    hide TakeRr, RecordFrom;
    if n == 0 {
      os := [c.offset];
    } else {
      var d := TakeRr(buf, c);
      var rest := RrsAreAChain(buf, d, n - 1);
      RecordMeaning(buf, c.offset, d.offset);
      os := [c.offset] + rest;
    }
  }

  lemma {:induction false} ChainIsRrs(buf: seq<byte>, os: seq<nat>, n: nat)
    requires Chain(buf, os) && |os| == n + 1
    ensures TakeRrs(buf, Cursor(os[0], NoError), n) == Cursor(os[n], NoError)
    decreases n
  {
    hide TakeRr, RecordFrom;
    if n > 0 {
      assert RecordFrom(buf, os[0], os[1]);
      RecordMeaning(buf, os[0], os[1]);
      assert forall k :: 0 <= k < |os| - 1 ==> os[1..][k] == os[k + 1];
      ChainIsRrs(buf, os[1..], n - 1);
    }
  }

  // The data of a record, by type; names stand in buffers of MAXDNAME bytes.
  datatype RrData = NameData(dname: seq<byte>) | Mx(preference: nat, exchange: seq<byte>)
                 | Soa(mname: seq<byte>, rname: seq<byte>, serial: nat, refresh: nat, retry: nat, expire: nat, minimum: nat)
                 | InA(addr: seq<byte>) | InAaaa(addr6: seq<byte>) | Other(rdata: seq<byte>)

  ghost predicate IsName(buf: seq<byte>, p: nat, dst: seq<byte>) {
    NameAt(buf, p).Some? && Wire(NameAt(buf, p).value) <= dst
  }

  // The data from p to b is rd.
  ghost predicate DataIs(buf: seq<byte>, p: nat, b: nat, typ: nat, cls: nat, rd: RrData) {
    p <= b <= |buf| &&
    match rd
    case NameData(dname) => typ in {T_CNAME, T_NS, T_PTR} && IsName(buf, p, dname)
    case Mx(preference, exchange) => typ == T_MX && p + 2 <= b && preference == Num16(buf[p..p + 2]) && IsName(buf, p + 2, exchange)
    case Soa(mname, rname, serial, refresh, retry, expire, minimum) =>
      && typ == T_SOA && 20 <= b && NameEnd(buf, p).Some? && IsName(buf, p, mname) && IsName(buf, NameEnd(buf, p).value, rname)
      && serial == Num32(buf[b - 20..b - 16]) && refresh == Num32(buf[b - 16..b - 12]) && retry == Num32(buf[b - 12..b - 8])
      && expire == Num32(buf[b - 8..b - 4]) && minimum == Num32(buf[b - 4..b])
    case InA(addr) => typ == T_A && cls == C_IN && b == p + 4 && addr == buf[p..b]
    case InAaaa(addr6) => typ == T_AAAA && cls == C_IN && b == p + 16 && addr6 == buf[p..b]
    case Other(rdata) => typ !in {T_CNAME, T_NS, T_PTR, T_MX, T_SOA} && (cls == C_IN ==> typ != T_A && typ != T_AAAA) && rdata == buf[p..b]
  }

  /*** struct asr_unpack ***/

  class Unpack {
    const buf: seq<byte>
    var offset: nat
    var err: Errno

    ghost predicate Valid()
      reads this
    {
      offset <= |buf|
    }

    function Cur(): Cursor
      reads this
    {
      Cursor(offset, err)
    }

    // _asr_unpack_init
    constructor (buf: seq<byte>)
      ensures Valid() && this.buf == buf && Cur() == Cursor(0, NoError)
    {
      this.buf, offset, err := buf, 0, NoError;
    }

    method Data(n: nat) returns (d: seq<byte>)
      requires Valid()
      modifies this
      ensures Valid() && Cur() == Take(buf, old(Cur()), n)
      ensures err == NoError ==> d == buf[old(offset)..offset]
      ensures |d| == n || err != NoError
    {
      d := [];
      if err != NoError { return; }
      if |buf| - offset < n {
        err := EOVERFLOW;
        return;
      }
      d := buf[offset..offset + n];
      offset := offset + n;
    }

    method U16() returns (v: nat)
      requires Valid()
      modifies this
      ensures Valid() && Cur() == Take(buf, old(Cur()), 2)
      ensures err == NoError ==> v == Num16(buf[old(offset)..offset])
    {
      var d := Data(2);
      v := if err == NoError then Num16(d) else 0;
    }

    method U32() returns (v: nat)
      requires Valid()
      modifies this
      ensures Valid() && Cur() == Take(buf, old(Cur()), 4)
      ensures err == NoError ==> v == Num32(buf[old(offset)..offset])
    {
      var d := Data(4);
      v := if err == NoError then Num32(d) else 0;
    }

    // unpack_dname into a buffer of MAXDNAME bytes
    method Name() returns (dst: seq<byte>)
      requires Valid()
      modifies this
      ensures Valid() && Cur() == TakeName(buf, old(Cur()))
      ensures err == NoError ==> IsName(buf, old(offset), dst) && NameEnd(buf, old(offset)) == Some(offset)
    {
      hide Expand, FinalEnd, WireBody;
      dst := [];
      if err != NoError { return; }
      var a := new byte[MAXDNAME](i => 0);
      var e, end := ExpandName(buf, offset, a);
      if e == -1 {
        err := EINVAL;
        return;
      }
      ghost var w := Wire(NameAt(buf, offset).value);
      offset := end;
      if e > MAXDNAME {
        err := ERANGE;
        return;
      }
      dst := a[..];
      assert w == dst[..|w|];
    }

    method Header() returns (h: DnsHeader)
      requires Valid()
      modifies this
      ensures Valid() && Cur() == Take(buf, old(Cur()), HFIXEDSZ)
      ensures err == NoError ==> h == HeaderAt(buf[old(offset)..])
    {
      var d := Data(HFIXEDSZ);
      h := if err == NoError then HeaderAt(d) else DnsHeader(0, 0, 0, 0, 0, 0);
      if err == NoError {
        SameHeader(d, buf[old(offset)..]);
      }
    }

    method Query() returns (dname: seq<byte>, typ: nat, cls: nat)
      requires Valid()
      modifies this
      ensures Valid() && Cur() == TakeQuestion(buf, old(Cur()))
      ensures err == NoError ==> Wire(QuestionAt(buf, old(Cur())).name) <= dname && QuestionAt(buf, old(Cur())) == Question(QuestionAt(buf, old(Cur())).name, typ, cls)
    {
      hide Expand, FinalEnd, WireBody, Num16;
      dname := Name();
      typ := U16();
      cls := U16();
    }

    // _asr_unpack_rr: a record is there, and these are its values.
    method Rr() returns (dname: seq<byte>, typ: nat, cls: nat, ttl: nat, rd: RrData)
      requires Valid()
      modifies this
      ensures Valid() && Cur() == TakeRr(buf, old(Cur()))
      ensures err == NoError ==>
                RecordFrom(buf, old(offset), offset) && IsName(buf, old(offset), dname) &&
                var e := NameEnd(buf, old(offset)).value;
                typ == Num16(buf[e..e + 2]) && cls == Num16(buf[e + 2..e + 4]) && ttl == Num32(buf[e + 4..e + 8])
                && DataIs(buf, e + 10, offset, typ, cls, rd)
    {
      hide Expand, FinalEnd, WireBody, Num16, TakeName, TakeRdata, DataIs, DataFits, NameEnd, NameAt;
      dname := Name();
      typ := U16();
      cls := U16();
      ttl := U32();
      var rdlen := U16();
      rd := RrData.Other([]);
      if err != NoError { return; }
      HeadMeaning(buf, old(offset));
      if |buf| - offset < rdlen {
        err := EOVERFLOW;
        return;
      }
      var saved := offset;
      rd := Rdata(typ, cls, rdlen);
      if err != NoError { return; }
      if offset - saved != rdlen {
        err := EINVAL;
        return;
      }
      RecordMeaning(buf, old(offset), offset);
    }

    method SoaData(ghost cls: nat) returns (rd: RrData)
      requires Valid() && err == NoError
      modifies this
      ensures Valid() && Cur() == TakeSoa(buf, old(Cur()))
      ensures err == NoError ==> DataIs(buf, old(offset), offset, T_SOA, cls, rd)
    {
      hide Expand, FinalEnd, WireBody, Num32, TakeName, NameEnd, NameAt;
      var mname := Name();
      var rname := Name();
      var serial := U32();
      var refresh := U32();
      var retry := U32();
      var expire := U32();
      var minimum := U32();
      rd := Soa(mname, rname, serial, refresh, retry, expire, minimum);
    }

    method Rdata(typ: nat, cls: nat, rdlen: nat) returns (rd: RrData)
      requires Valid() && err == NoError && rdlen <= |buf| - offset
      modifies this
      ensures Valid() && Cur() == TakeRdata(buf, old(Cur()), typ, cls, rdlen)
      ensures err == NoError ==> DataIs(buf, old(offset), offset, typ, cls, rd)
    {
      hide Expand, FinalEnd, WireBody, Num16, Num32, TakeName, NameEnd, NameAt;
      if typ == T_CNAME || typ == T_NS || typ == T_PTR {
        var n := Name();
        rd := NameData(n);
      } else if typ == T_MX {
        var p := U16();
        var n := Name();
        rd := Mx(p, n);
      } else if typ == T_SOA {
        rd := SoaData(cls);
      } else if typ == T_A && cls == C_IN {
        var a := Data(4);
        rd := InA(a);
      } else if typ == T_AAAA && cls == C_IN {
        var a := Data(16);
        rd := InAaaa(a);
      } else {
        rd := RrData.Other(buf[offset..offset + rdlen]);
        offset := offset + rdlen;
      }
    }
  }

  lemma {:induction false} SameHeader(d: seq<byte>, s: seq<byte>)
    requires |d| == HFIXEDSZ && d <= s
    ensures HeaderAt(d) == HeaderAt(s)
  {
    assert forall i, j :: 0 <= i <= j <= HFIXEDSZ ==> d[i..j] == s[i..j];
  }

  /*** struct asr_pack ***/

  class Pack {
    const buf: array<byte>
    var offset: nat
    var err: Errno

    ghost predicate Valid()
      reads this, buf
    {
      offset <= buf.Length
    }

    ghost function Packed(): seq<byte>
      reads this, buf
    {
      if offset <= buf.Length then buf[..offset] else []
    }

    // _asr_pack_init
    constructor (buf: array<byte>)
      ensures Valid() && this.buf == buf && Packed() == [] && err == NoError
    {
      this.buf, offset, err := buf, 0, NoError;
    }

    // pack_data: all of the bytes or, from the first failure on, none.
    method Data(d: seq<byte>)
      requires Valid()
      modifies this, buf
      ensures Valid() && (err == NoError <==> old(err) == NoError && old(offset) + |d| <= buf.Length)
      ensures err == NoError ==> Packed() == old(Packed()) + d
    {
      if err != NoError { return; }
      if buf.Length < offset + |d| {
        err := EOVERFLOW;
        return;
      }
      forall i | 0 <= i < |d| {
        buf[offset + i] := d[i];
      }
      offset := offset + |d|;
      assert Packed() == old(Packed()) + d;
    }

    method U16(v: nat)
      requires Valid() && v < 0x1_0000
      modifies this, buf
      ensures Valid() && (err == NoError <==> old(err) == NoError && old(offset) + 2 <= buf.Length)
      ensures err == NoError ==> Packed() == old(Packed()) + Net16(v)
    {
      Data(Net16(v));
    }

    method Header(h: DnsHeader)
      requires Valid() && ValidHeader(h)
      modifies this, buf
      ensures Valid() && (err == NoError <==> old(err) == NoError && old(offset) + HFIXEDSZ <= buf.Length)
      ensures err == NoError ==> Packed() == old(Packed()) + HeaderBytes(h)
    {
      Data(HeaderBytes(h));
    }

    // _asr_pack_query; dname is the wire form of a name without zero bytes in its labels.
    method Query(typ: nat, cls: nat, dname: seq<byte>, ghost ls: seq<Label>)
      requires Valid() && typ < 0x1_0000 && cls < 0x1_0000
      requires TextName(ls) && Wire(ls) <= dname
      modifies this, buf
      ensures Valid() && (err == NoError <==> old(err) == NoError && old(offset) + |Wire(ls)| + 4 <= buf.Length)
      ensures err == NoError ==> Packed() == old(Packed()) + QuestionBytes(Question(ls, typ, cls))
    {
      hide WireBody, Net16;
      WireString(ls, dname);
      ghost var before := Packed();
      Data(dname[..IndexOf(dname, 0) + 1]);
      U16(typ);
      U16(cls);
      if err == NoError {
        Assoc(before + Wire(ls), Net16(typ), Net16(cls));
        Assoc(before, Wire(ls), Net16(typ) + Net16(cls));
        Assoc(Wire(ls), Net16(typ), Net16(cls));
      }
    }

    // _asr_pack_edns0
    method Edns0(pktsz: nat, dnssecDo: bool)
      requires Valid() && pktsz < 0x1_0000
      modifies this, buf
      ensures Valid() && (err == NoError <==> old(err) == NoError && old(offset) + 11 <= buf.Length)
      ensures err == NoError ==> Packed() == old(Packed()) + OptBytes(pktsz, dnssecDo)
    {
      hide Net16;
      ghost var before := Packed();
      Data([0]);
      U16(T_OPT);
      U16(pktsz);
      U16(0);
      U16(if dnssecDo then 0x8000 else 0);
      U16(0);
      if err == NoError {
        SixParts(before, [0], Net16(T_OPT), Net16(pktsz), Net16(0), Net16(if dnssecDo then 0x8000 else 0), Net16(0));
      }
    }
  }

  lemma {:induction false} SixParts(s: seq<byte>, a: seq<byte>, b: seq<byte>, c: seq<byte>, d: seq<byte>, e: seq<byte>, f: seq<byte>)
    ensures s + a + b + c + d + e + f == s + (a + b + c + d + e + f)
  {
    Assoc(s, a, b);
    Assoc(s, a + b, c);
    Assoc(s, a + b + c, d);
    Assoc(s, a + b + c + d, e);
    Assoc(s, a + b + c + d + e, f);
  }

  function QuestionBytes(q: Question): seq<byte>
    requires (forall i :: 0 <= i < |q.name| ==> ValidLabel(q.name[i])) && q.typ < 0x1_0000 && q.cls < 0x1_0000
  {
    Wire(q.name) + Net16(q.typ) + Net16(q.cls)
  }

  // The OPT record: root owner, type, payload size, extended code and flags, no data.
  function OptBytes(pktsz: nat, dnssecDo: bool): (s: seq<byte>)
    requires pktsz < 0x1_0000
    ensures |s| == 11
  {
    [0] + Net16(T_OPT) + Net16(pktsz) + Net16(0) + Net16(if dnssecDo then 0x8000 else 0) + Net16(0)
  }

  // As a C string, the wire form of a name ends at its own terminator.
  lemma {:induction false} WireString(ls: seq<Label>, dname: seq<byte>)
    requires TextName(ls) && Wire(ls) <= dname
    ensures IndexOf(dname, 0) + 1 == |Wire(ls)| && dname[..IndexOf(dname, 0) + 1] == Wire(ls)
  {
    NoZero(ls);
    var i, n := IndexOf(dname, 0), |WireBody(ls)|;
    assert dname[..n] == WireBody(ls) && dname[n] == 0;
    FirstZero(dname, n);
  }

  lemma {:induction false} FirstZero(s: seq<byte>, n: nat)
    requires n < |s| && s[n] == 0 && 0 !in s[..n]
    ensures IndexOf(s, 0) == n
  {
    if n > 0 {
      assert s[0] == s[..n][0];
      assert s[1..][..n - 1] == s[..n][1..];
      FirstZero(s[1..], n - 1);
    }
  }

  lemma {:induction false} NoZero(ls: seq<Label>)
    requires TextName(ls)
    ensures ValidName(ls) && 0 !in WireBody(ls)
  {
    assert forall i :: 0 <= i < |ls| ==> TextLabel(ls[i]) && ValidLabel(ls[i]);
    if ls != [] {
      NoZero(ls[1..]);
      assert 0 !in ls[0];
    }
  }

  // A packed question is unpacked as it was, and the cursor is right behind it.
  lemma {:induction false} QuestionRoundTrip(pre: seq<byte>, q: Question, post: seq<byte>)
    requires ValidName(q.name) && q.typ < 0x1_0000 && q.cls < 0x1_0000 && |Wire(q.name)| <= MAXDNAME
    ensures var buf, c := pre + QuestionBytes(q) + post, Cursor(|pre|, NoError);
            TakeQuestion(buf, c) == Cursor(|pre| + |QuestionBytes(q)|, NoError) && QuestionAt(buf, c) == q
  {
    hide WireBody, Expand, FinalEnd, Net16, Num16;
    var buf, c := pre + QuestionBytes(q) + post, Cursor(|pre|, NoError);
    var tail := Net16(q.typ) + Net16(q.cls) + post;
    assert buf == pre + Wire(q.name) + tail;
    ExpandWire(pre, q.name, tail, |pre|);
    var n := |pre| + |Wire(q.name)|;
    assert TakeName(buf, c) == Cursor(n, NoError);
    assert buf[n..n + 2] == Net16(q.typ) && buf[n + 2..n + 4] == Net16(q.cls);
  }

  lemma {:induction false} OptAccepted(pre: seq<byte>, pktsz: nat, dnssecDo: bool)
    requires pktsz < 0x1_0000
    ensures var buf := pre + OptBytes(pktsz, dnssecDo);
            TakeRr(buf, Cursor(|pre|, NoError)) == Cursor(|buf|, NoError)
  {
    hide WireBody, Expand, FinalEnd, Net16, Num16;
    var buf, c := pre + OptBytes(pktsz, dnssecDo), Cursor(|pre|, NoError);
    var tail := Net16(T_OPT) + Net16(pktsz) + Net16(0) + Net16(if dnssecDo then 0x8000 else 0) + Net16(0);
    OptParts(pre, Net16(T_OPT), Net16(pktsz), Net16(0), Net16(if dnssecDo then 0x8000 else 0), Net16(0));
    ExpandWire(pre, [], tail, |pre|);
    assert TakeName(buf, c) == Cursor(|pre| + 1, NoError);
    assert TakeRrHead(buf, c) == Cursor(|buf|, NoError);
  }

  lemma {:induction false} OptParts(pre: seq<byte>, b: seq<byte>, c: seq<byte>, d: seq<byte>, e: seq<byte>, f: seq<byte>)
    requires |b| == |c| == |d| == |e| == |f| == 2
    ensures var buf := pre + ([0] + b + c + d + e + f);
            buf == pre + Wire([]) + (b + c + d + e + f) && buf[|buf| - 10..|buf| - 8] == b && buf[|buf| - 2..|buf|] == f
  {
    var o, buf := [0] + b + c + d + e + f, pre + ([0] + b + c + d + e + f);
    assert o == [0] + (b + c + d + e + f);
    assert o[1..3] == b && o[9..11] == f;
    assert buf[|pre| + 1..|pre| + 3] == o[1..3] && buf[|pre| + 9..|pre| + 11] == o[9..11];
    assert Wire([]) == [0];
    Assoc(pre, [0], b + c + d + e + f);
  }
}
