/** The imsg protocol of openbsd-compat/imsg.c as it appears on the wire: messages become
    bytes, a file descriptor rides on a message's first byte, and a reader that sees the
    stream in arbitrary pieces gets the messages back. */
module ImsgWire {

  import opened Common

  const IMSG_HEADER_SIZE: nat := 16
  const MAX_IMSGSIZE: nat := 16384
  const IBUF_READ_SIZE: nat := 65535
  const IMSGF_HASFD: nat := 1

  // A message as handed to imsg_compose and as returned by imsg_get; fd is -1 for none.
  datatype Message = Message(typ: nat, peerid: nat, pid: nat, fd: int, data: seq<byte>)

  // struct imsg_hdr
  datatype Header = Header(typ: nat, len: nat, flags: nat, peerid: nat, pid: nat)

  predicate ValidHeader(h: Header) {
    && h.typ < 0x1_0000_0000 && h.peerid < 0x1_0000_0000 && h.pid < 0x1_0000_0000
    && h.len < 0x1_0000 && h.flags < 0x1_0000
  }

  predicate ValidMessage(m: Message) {
    && m.typ < 0x1_0000_0000 && m.peerid < 0x1_0000_0000 && m.pid < 0x1_0000_0000
    && IMSG_HEADER_SIZE + |m.data| <= MAX_IMSGSIZE
  }

  /*** The header in memory: host byte order, here little-endian ***/

  function Bytes16(n: nat): (s: seq<byte>)
    requires n < 0x1_0000
    ensures |s| == 2
  {
    [n % 256, n / 256]
  }

  function Bytes32(n: nat): (s: seq<byte>)
    requires n < 0x1_0000_0000
    ensures |s| == 4
  {
    [n % 256, (n / 256) % 256, (n / 65536) % 256, n / 16777216]
  }

  function Word16(s: seq<byte>): (n: nat)
    requires |s| == 2
  {
    s[0] as int + 256 * s[1] as int
  }

  function Word32(s: seq<byte>): (n: nat)
    requires |s| == 4
  {
    s[0] as int + 256 * (s[1] as int + 256 * (s[2] as int + 256 * s[3] as int))
  }

  lemma {:induction false} WordRoundTrip(n: nat)
    ensures n < 0x1_0000 ==> Word16(Bytes16(n)) == n
    ensures n < 0x1_0000_0000 ==> Word32(Bytes32(n)) == n
  {
    assert n / 65536 == (n / 256) / 256;
    assert n / 16777216 == (n / 65536) / 256;
  }

  function EncodeHeader(h: Header): (s: seq<byte>)
    requires ValidHeader(h)
    ensures |s| == IMSG_HEADER_SIZE
  {
    Bytes32(h.typ) + Bytes16(h.len) + Bytes16(h.flags) + Bytes32(h.peerid) + Bytes32(h.pid)
  }

  function DecodeHeader(s: seq<byte>): Header
    requires |s| >= IMSG_HEADER_SIZE
  {
    Header(Word32(s[0..4]), Word16(s[4..6]), Word16(s[6..8]), Word32(s[8..12]), Word32(s[12..16]))
  }

  lemma {:induction false} HeaderRoundTrip(h: Header, rest: seq<byte>)
    requires ValidHeader(h)
    ensures DecodeHeader(EncodeHeader(h) + rest) == h
  {
    hide Word16, Word32, Bytes16, Bytes32;
    var s := EncodeHeader(h) + rest;
    assert s[0..4] == Bytes32(h.typ);
    assert s[4..6] == Bytes16(h.len);
    assert s[6..8] == Bytes16(h.flags);
    assert s[8..12] == Bytes32(h.peerid);
    assert s[12..16] == Bytes32(h.pid);
    WordRoundTrip(h.typ);
    WordRoundTrip(h.len);
    WordRoundTrip(h.flags);
    WordRoundTrip(h.peerid);
    WordRoundTrip(h.pid);
  }

  function HeaderOf(m: Message): (h: Header)
    requires ValidMessage(m)
    ensures ValidHeader(h)
  {
    Header(m.typ, IMSG_HEADER_SIZE + |m.data|, if m.fd == -1 then 0 else IMSGF_HASFD, m.peerid, m.pid)
  }

  function Encode(m: Message): (s: seq<byte>)
    requires ValidMessage(m)
    ensures |s| == IMSG_HEADER_SIZE + |m.data|
  {
    EncodeHeader(HeaderOf(m)) + m.data
  }

  // A message on the wire, byte by byte: type, length, flags, peer id and process id, then the
  // data; the flag says that a descriptor comes with it.
  lemma {:induction false} WireLayout(m: Message)
    requires ValidMessage(m)
    ensures var s := Encode(m);
            && m.typ == s[0] as int + 256 * s[1] as int + 65536 * s[2] as int + 16777216 * s[3] as int
            && 16 + |m.data| == s[4] as int + 256 * s[5] as int && s[6] == (if m.fd == -1 then 0 else 1) && s[7] == 0
            && m.peerid == s[8] as int + 256 * s[9] as int + 65536 * s[10] as int + 16777216 * s[11] as int
            && m.pid == s[12] as int + 256 * s[13] as int + 65536 * s[14] as int + 16777216 * s[15] as int
            && s[16..] == m.data
  {
    hide Bytes16, Bytes32;
    var h := EncodeHeader(HeaderOf(m));
    BytesAre(m.typ);
    BytesAre(m.peerid);
    BytesAre(m.pid);
    ShortBytesAre(16 + |m.data|);
    ShortBytesAre(if m.fd == -1 then 0 else 1);
    assert forall i :: 0 <= i < 4 ==> h[i] == Bytes32(m.typ)[i] && h[8 + i] == Bytes32(m.peerid)[i] && h[12 + i] == Bytes32(m.pid)[i];
  }

  lemma {:induction false} BytesAre(n: nat)
    requires n < 0x1_0000_0000
    ensures var s := Bytes32(n); n == s[0] as int + 256 * s[1] as int + 65536 * s[2] as int + 16777216 * s[3] as int
  {
    assert n / 65536 == (n / 256) / 256;
    assert n / 16777216 == (n / 65536) / 256;
  }

  lemma {:induction false} ShortBytesAre(n: nat)
    requires n < 0x1_0000
    ensures var s := Bytes16(n); n == s[0] as int + 256 * s[1] as int && (n < 256 ==> s == [n, 0])
  {
  }

  /*** Bytes in flight, with their descriptors ***/

  // A byte of the stream and the descriptor that travels with it, -1 for none.
  datatype Cell = Cell(b: byte, fd: int)

  function Plain(s: seq<byte>): (c: seq<Cell>)
    ensures |c| == |s|
    ensures forall i :: 0 <= i < |s| ==> c[i] == Cell(s[i], -1)
  {
    seq(|s|, i requires 0 <= i < |s| => Cell(s[i], -1))
  }

  // A buffer's bytes, with its descriptor on the first.
  function Tagged(s: seq<byte>, fd: int): (c: seq<Cell>)
    ensures |c| == |s|
  {
    if s == [] then [] else [Cell(s[0], fd)] + Plain(s[1..])
  }

  function CellBytes(c: seq<Cell>): (s: seq<byte>)
    ensures |s| == |c|
    ensures forall i :: 0 <= i < |c| ==> s[i] == c[i].b
  {
    seq(|c|, i requires 0 <= i < |c| => c[i].b)
  }

  function Fds(c: seq<Cell>): seq<int> {
    if c == [] then [] else (if c[0].fd == -1 then [] else [c[0].fd]) + Fds(c[1..])
  }

  lemma {:induction false} FdsAppend(c: seq<Cell>, d: seq<Cell>)
    ensures Fds(c + d) == Fds(c) + Fds(d)
  {
    if c == [] {
      assert c + d == d;
    } else {
      FdsAppend(c[1..], d);
      assert (c + d)[1..] == c[1..] + d;
      var f := if c[0].fd == -1 then [] else [c[0].fd];
      assert f + (Fds(c[1..]) + Fds(d)) == (f + Fds(c[1..])) + Fds(d);
    }
  }

  lemma {:induction false} FdsPlain(s: seq<byte>)
    ensures Fds(Plain(s)) == []
  {
    if s != [] {
      FdsPlain(s[1..]);
      assert Plain(s)[1..] == Plain(s[1..]);
    }
  }

  lemma {:induction false} TaggedParts(s: seq<byte>, fd: int)
    requires s != []
    ensures CellBytes(Tagged(s, fd)) == s
    ensures Fds(Tagged(s, fd)) == if fd == -1 then [] else [fd]
  {
    FdsPlain(s[1..]);
    assert Tagged(s, fd)[1..] == Plain(s[1..]);
  }

  function MessageCells(m: Message): (c: seq<Cell>)
    requires ValidMessage(m)
    ensures |c| == IMSG_HEADER_SIZE + |m.data|
  {
    Tagged(Encode(m), m.fd)
  }

  function AllCells(ms: seq<Message>): seq<Cell>
    requires forall m :: m in ms ==> ValidMessage(m)
  {
    if ms == [] then [] else MessageCells(ms[0]) + AllCells(ms[1..])
  }

  lemma {:induction false} AllCellsAppend(ms: seq<Message>, m: Message)
    requires (forall x :: x in ms ==> ValidMessage(x)) && ValidMessage(m)
    ensures forall x :: x in ms + [m] ==> ValidMessage(x)
    ensures AllCells(ms + [m]) == AllCells(ms) + MessageCells(m)
  {
    hide MessageCells, ValidMessage;
    if ms == [] {
      assert ms + [m] == [m];
      assert AllCells([m]) == MessageCells(m) + [];
    } else {
      AllCellsAppend(ms[1..], m);
      var ns := ms + [m];
      assert ns[1..] == ms[1..] + [m] && ns[0] == ms[0];
      assert MessageCells(ms[0]) + (AllCells(ms[1..]) + MessageCells(m)) == AllCells(ms) + MessageCells(m);
    }
  }

  /*** imsg_get ***/

  datatype GetResult = Incomplete | BadLength | Got(msg: Message, rest: seq<byte>, fds: seq<int>)

  // What imsg_get makes of the unread bytes and the queued descriptors.
  function Get(buf: seq<byte>, fds: seq<int>): GetResult {
    if |buf| < IMSG_HEADER_SIZE then Incomplete
    else
      var h := DecodeHeader(buf);
      if h.len < IMSG_HEADER_SIZE || h.len > MAX_IMSGSIZE then BadLength
      else if h.len > |buf| then Incomplete
      else
        var hasfd := h.flags % 2 == 1;
        var fd := if hasfd && fds != [] then fds[0] else -1;
        Got(Message(h.typ, h.peerid, h.pid, fd, buf[IMSG_HEADER_SIZE..h.len]), buf[h.len..],
            if hasfd && fds != [] then fds[1..] else fds)
  }

  // What imsg_get takes off a buffer: nothing before the header is there; a failure if the
  // length in bytes 4 and 5 is out of range; and otherwise, once that many bytes are there, a
  // message with the rest of them.
  lemma {:induction false} GetMeaning(buf: seq<byte>, fds: seq<int>)
    ensures |buf| < 16 ==> Get(buf, fds) == Incomplete
    ensures |buf| >= 16 ==>
              var n, r := buf[4] as int + 256 * buf[5] as int, Get(buf, fds);
              && (r == BadLength <==> n < 16 || n > 16384)
              && (r == Incomplete <==> 16 <= n <= 16384 && n > |buf|)
              && (r.Got? ==> n <= |buf| && r.msg.data == buf[16..n] && r.rest == buf[n..])
              && (r.Got? ==> if buf[6] % 2 == 1 && fds != [] then r.msg.fd == fds[0] && r.fds == fds[1..] else r.msg.fd == -1 && r.fds == fds)
  {
    if |buf| >= 16 {
      assert buf[4..6][0] == buf[4] && buf[4..6][1] == buf[5] && buf[6..8][0] == buf[6];
    }
  }

  // A reader that is told to wait always has room for more bytes.
  lemma {:induction false} NeverWedged(buf: seq<byte>, fds: seq<int>)
    requires |buf| <= IBUF_READ_SIZE && Get(buf, fds) == Incomplete
    ensures |buf| < MAX_IMSGSIZE < IBUF_READ_SIZE
  {
  }

  // The bytes received so far, as cells, are a prefix of the messages not yet returned.
  ghost predicate Received(pending: seq<Message>, buf: seq<byte>, fds: seq<int>, cells: seq<Cell>, later: seq<Cell>) {
    && (forall m :: m in pending ==> ValidMessage(m))
    && CellBytes(cells) == buf && Fds(cells) == fds
    && AllCells(pending) == cells + later
  }

  // If the first pending message has arrived in full, imsg_get returns it with its
  // own descriptor and leaves the rest; otherwise it asks for more. It never fails.
  lemma {:induction false} GetFirst(pending: seq<Message>, buf: seq<byte>, fds: seq<int>, cells: seq<Cell>, later: seq<Cell>)
    requires Received(pending, buf, fds, cells, later)
    ensures pending == [] ==> buf == [] && later == []
    ensures pending != [] && |buf| < |MessageCells(pending[0])| ==> Get(buf, fds) == Incomplete
    ensures pending != [] && |buf| >= |MessageCells(pending[0])| ==>
              var r := Get(buf, fds);
              && r.Got? && r.msg == pending[0]
              && Received(pending[1..], r.rest, r.fds, cells[|MessageCells(pending[0])|..], later)
    ensures pending == [] ==> Get(buf, fds) == Incomplete
  {
    if pending == [] {
      assert cells == [] && later == [];
    } else {
      var m := pending[0];
      var mc := MessageCells(m);
      assert AllCells(pending) == mc + AllCells(pending[1..]);
      TaggedParts(Encode(m), m.fd);
      if |buf| >= |mc| {
        assert cells[..|mc|] == mc by { assert (cells + later)[..|mc|] == (mc + AllCells(pending[1..]))[..|mc|]; }
        GetWhole(m, buf, fds, cells, later, pending);
      } else if |buf| >= IMSG_HEADER_SIZE {
        GetPart(m, buf, cells, later, pending);
      }
    }
  }

  lemma {:induction false} GetWhole(m: Message, buf: seq<byte>, fds: seq<int>, cells: seq<Cell>, later: seq<Cell>, pending: seq<Message>)
    requires Received(pending, buf, fds, cells, later) && pending != [] && m == pending[0]
    requires |MessageCells(m)| <= |cells| && cells[..|MessageCells(m)|] == MessageCells(m)
    ensures var r := Get(buf, fds);
            && r.Got? && r.msg == m
            && Received(pending[1..], r.rest, r.fds, cells[|MessageCells(m)|..], later)
  {
    var mc := MessageCells(m);
    var n := |mc|;
    CutFirst(m, buf, fds, cells, later, pending);
    WholeBytes(m, buf, cells);
    HeaderRoundTrip(HeaderOf(m), m.data + buf[n..]);
    assert buf[IMSG_HEADER_SIZE..n] == m.data;
  }

  lemma {:induction false} WholeBytes(m: Message, buf: seq<byte>, cells: seq<Cell>)
    requires ValidMessage(m) && CellBytes(cells) == buf
    requires |MessageCells(m)| <= |cells| && cells[..|MessageCells(m)|] == MessageCells(m)
    ensures buf == EncodeHeader(HeaderOf(m)) + (m.data + buf[|MessageCells(m)|..])
  {
    hide EncodeHeader, HeaderOf, Tagged;
    var mc := MessageCells(m);
    var n := |mc|;
    TaggedParts(Encode(m), m.fd);
    assert buf[..n] == CellBytes(mc);
    assert buf == buf[..n] + buf[n..];
  }

  // Taking the first message's cells off the front.
  lemma {:induction false} CutFirst(m: Message, buf: seq<byte>, fds: seq<int>, cells: seq<Cell>, later: seq<Cell>, pending: seq<Message>)
    requires Received(pending, buf, fds, cells, later) && pending != [] && m == pending[0]
    requires |MessageCells(m)| <= |cells| && cells[..|MessageCells(m)|] == MessageCells(m)
    ensures Received(pending[1..], buf[|MessageCells(m)|..], Fds(cells[|MessageCells(m)|..]), cells[|MessageCells(m)|..], later)
    ensures fds == (if m.fd == -1 then [] else [m.fd]) + Fds(cells[|MessageCells(m)|..])
  {
    var mc := MessageCells(m);
    var n, tail := |mc|, cells[|mc|..];
    assert cells == mc + tail;
    TaggedParts(Encode(m), m.fd);
    FdsAppend(mc, tail);
    var rest := AllCells(pending[1..]);
    assert (mc + tail) + later == mc + rest;
    assert tail + later == rest by {
      assert ((mc + tail) + later)[n..] == tail + later;
      assert (mc + rest)[n..] == rest;
    }
  }

  lemma {:induction false} GetPart(m: Message, buf: seq<byte>, cells: seq<Cell>, later: seq<Cell>, pending: seq<Message>)
    requires pending != [] && m == pending[0] && (forall x :: x in pending ==> ValidMessage(x))
    requires CellBytes(cells) == buf && AllCells(pending) == cells + later
    requires IMSG_HEADER_SIZE <= |buf| < |MessageCells(m)|
    ensures DecodeHeader(buf) == HeaderOf(m)
  {
    var mc, k := MessageCells(m), |buf|;
    assert cells == mc[..k] by {
      assert (cells + later)[..k] == (mc + AllCells(pending[1..]))[..k];
      assert (mc + AllCells(pending[1..]))[..k] == mc[..k];
    }
    TaggedParts(Encode(m), m.fd);
    assert buf == Encode(m)[..k] by { assert CellBytes(mc) == Encode(m); }
    assert buf == EncodeHeader(HeaderOf(m)) + Encode(m)[IMSG_HEADER_SIZE..k];
    HeaderRoundTrip(HeaderOf(m), Encode(m)[IMSG_HEADER_SIZE..k]);
  }

  /*** Whole runs: a sender, a stream socket, a receiver ***/

  datatype System = System(
    composed: seq<Message>,   // what imsg_compose has accepted so far
    unsent: seq<Cell>,        // queued in the sender's buffers
    wire: seq<Cell>,          // in the kernel
    buf: seq<byte>,           // the receiver's unread bytes
    fds: seq<int>,            // the receiver's descriptor queue
    got: seq<Message>)        // what imsg_get has returned so far

  const START := System([], [], [], [], [], [])

  datatype Event = Compose(msg: Message) | Send(n: nat) | Recv(n: nat) | TakeOne

  // sendmsg moves a non-empty prefix of the queue, with a descriptor at most on its
  // first byte; recvmsg delivers a non-empty prefix that fits, with at most one.
  ghost predicate Allowed(s: System, e: Event) {
    match e
    case Compose(m) => ValidMessage(m)
    case Send(n) => 0 < n <= |s.unsent| && Fds(s.unsent[1..n]) == []
    case Recv(n) => 0 < n <= |s.wire| && n <= IBUF_READ_SIZE - |s.buf| && |Fds(s.wire[..n])| <= 1
    case TakeOne => Get(s.buf, s.fds).Got?
  }

  ghost function Apply(s: System, e: Event): System
    requires Allowed(s, e)
  {
    match e
    case Compose(m) => s.(composed := s.composed + [m], unsent := s.unsent + MessageCells(m))
    case Send(n) => s.(unsent := s.unsent[n..], wire := s.wire + s.unsent[..n])
    case Recv(n) => s.(wire := s.wire[n..], buf := s.buf + CellBytes(s.wire[..n]), fds := s.fds + Fds(s.wire[..n]))
    case TakeOne =>
      var r := Get(s.buf, s.fds);
      s.(buf := r.rest, fds := r.fds, got := s.got + [r.msg])
  }

  ghost predicate ValidRun(s: System, es: seq<Event>)
    decreases |es|
  {
    es == [] || (Allowed(s, es[0]) && ValidRun(Apply(s, es[0]), es[1..]))
  }

  ghost function Run(s: System, es: seq<Event>): System
    requires ValidRun(s, es)
    decreases |es|
  {
    if es == [] then s else Run(Apply(s, es[0]), es[1..])
  }

  // The messages still owed are exactly what is buffered, in flight and queued.
  ghost predicate Invariant(s: System, cells: seq<Cell>) {
    && s.got <= s.composed
    && Received(s.composed[|s.got|..], s.buf, s.fds, cells, s.wire + s.unsent)
  }

  lemma {:induction false} StepKeeps(s: System, e: Event, cells: seq<Cell>) returns (cells': seq<Cell>)
    requires Invariant(s, cells) && Allowed(s, e)
    ensures Invariant(Apply(s, e), cells')
  {
    match e {
      case Compose(m) =>
        ComposeKeeps(s, m, cells);
        cells' := cells;
      case Send(n) =>
        assert (s.wire + s.unsent[..n]) + s.unsent[n..] == s.wire + s.unsent by { assert s.unsent == s.unsent[..n] + s.unsent[n..]; }
        cells' := cells;
      case Recv(n) =>
        RecvKeeps(s, n, cells);
        cells' := cells + s.wire[..n];
      case TakeOne =>
        cells' := TakeKeeps(s, cells);
    }
  }

  lemma {:induction false} ComposeKeeps(s: System, m: Message, cells: seq<Cell>)
    requires Invariant(s, cells) && ValidMessage(m)
    ensures Invariant(Apply(s, Compose(m)), cells)
  {
    hide MessageCells, Fds, CellBytes;
    var owed := s.composed[|s.got|..];
    AllCellsAppend(owed, m);
    assert (s.composed + [m])[|s.got|..] == owed + [m];
    assert s.got <= s.composed + [m];
    AppendThree(cells, s.wire, s.unsent, MessageCells(m));
  }

  lemma {:induction false} AppendThree(a: seq<Cell>, b: seq<Cell>, c: seq<Cell>, d: seq<Cell>)
    ensures (a + (b + c)) + d == a + (b + (c + d))
  {
  }

  lemma {:induction false} RecvKeeps(s: System, n: nat, cells: seq<Cell>)
    requires Invariant(s, cells) && Allowed(s, Recv(n))
    ensures Invariant(Apply(s, Recv(n)), cells + s.wire[..n])
  {
    hide AllCells, Fds;
    var w, v := s.wire[..n], s.wire[n..];
    FdsAppend(cells, w);
    assert CellBytes(cells + w) == s.buf + CellBytes(w);
    assert s.wire == w + v;
    assert (cells + w) + (v + s.unsent) == cells + ((w + v) + s.unsent);
  }

  lemma {:induction false} TakeKeeps(s: System, cells: seq<Cell>) returns (cells': seq<Cell>)
    requires Invariant(s, cells) && Get(s.buf, s.fds).Got?
    ensures Invariant(Apply(s, TakeOne), cells')
  {
    hide Received, Get, AllCells, MessageCells;
    var owed := s.composed[|s.got|..];
    ReceivedValid(owed, s.buf, s.fds, cells, s.wire + s.unsent);
    GetFirst(owed, s.buf, s.fds, cells, s.wire + s.unsent);
    var r := Get(s.buf, s.fds);
    cells' := cells[|MessageCells(owed[0])|..];
    assert s.got + [r.msg] <= s.composed;
    assert s.composed[|s.got| + 1..] == owed[1..];
  }

  lemma {:induction false} ReceivedValid(pending: seq<Message>, buf: seq<byte>, fds: seq<int>, cells: seq<Cell>, later: seq<Cell>)
    requires Received(pending, buf, fds, cells, later)
    ensures (forall m :: m in pending ==> ValidMessage(m)) && |cells| == |buf|
  {
  }

  lemma {:induction false} RunKeeps(s: System, es: seq<Event>, cells: seq<Cell>) returns (cells': seq<Cell>)
    requires Invariant(s, cells) && ValidRun(s, es)
    ensures Invariant(Run(s, es), cells')
    decreases |es|
  {
    if es == [] {
      cells' := cells;
    } else {
      var c := StepKeeps(s, es[0], cells);
      cells' := RunKeeps(Apply(s, es[0]), es[1..], c);
    }
  }

  // End to end: however the stream is cut, imsg_get returns the composed messages in
  // order, each with exactly its own type, ids, data and descriptor; it never reports a
  // bad length; and once everything has been delivered and it asks for more, all is there.
  lemma {:induction false} EndToEnd(es: seq<Event>)
    requires ValidRun(START, es)
    ensures var s := Run(START, es);
            && s.got <= s.composed
            && Get(s.buf, s.fds) != BadLength
            && (s.unsent == [] && s.wire == [] && Get(s.buf, s.fds) == Incomplete ==> s.got == s.composed && s.buf == [] && s.fds == [])
  {
    assert Invariant(START, []) by { assert AllCells([]) == [] + ([] + []); }
    var cells := RunKeeps(START, es, []);
    var s := Run(START, es);
    Owed(s, cells);
  }

  lemma {:induction false} Owed(s: System, cells: seq<Cell>)
    requires Invariant(s, cells)
    ensures Get(s.buf, s.fds) != BadLength
    ensures s.unsent == [] && s.wire == [] && Get(s.buf, s.fds) == Incomplete ==> s.got == s.composed && s.buf == [] && s.fds == []
  {
    var owed := s.composed[|s.got|..];
    ReceivedValid(owed, s.buf, s.fds, cells, s.wire + s.unsent);
    GetFirst(owed, s.buf, s.fds, cells, s.wire + s.unsent);
    if s.unsent == [] && s.wire == [] && Get(s.buf, s.fds) == Incomplete {
      assert s.wire + s.unsent == [];
      assert s.composed == s.got + owed;
    }
  }
}
