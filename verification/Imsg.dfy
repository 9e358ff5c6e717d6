/** The buffers of openbsd-compat/imsg-buffer.c and the channel ends of
    openbsd-compat/imsg.c, tied to the wire protocol of module ImsgWire. What sendmsg and
    recvmsg do on a call is a parameter; allocation does not fail. */
module Imsg {
  import opened Common
  import opened ImsgWire

  const IOV_MAX: nat := 1024

  // struct ibuf; size is the length of buf.
  class Ibuf {
    var buf: seq<byte>
    var max: nat
    var wpos: nat
    var rpos: nat
    var fd: int

    // What holds of every buffer on the heap.
    ghost predicate Valid()
      reads this
    {
      rpos <= wpos <= |buf| <= max && 0 < max
    }

    ghost function Data(): seq<byte>
      reads this
    {
      if Valid() then buf[rpos..wpos] else []
    }

    // ibuf_dynamic (and ibuf_open, where max is len) for arguments they accept.
    constructor (len: nat, max: nat)
      requires 0 < max && len <= max
      ensures Valid() && Data() == [] && rpos == 0 && fd == -1 && this.max == max && |buf| == len
    {
      buf := seq(len, i => 0);
      this.max := max;
      wpos, rpos, fd := 0, 0, -1;
    }

    // ibuf_add: the storage grows up to max, beyond it the call fails and nothing changes.
    method Add(data: seq<byte>) returns (ok: bool)
      requires Valid()
      modifies this`buf, this`wpos
      ensures Valid() && ok == (old(wpos) + |data| <= max)
      ensures ok ==> Data() == old(Data()) + data && wpos == old(wpos) + |data| && buf[..old(wpos)] == old(buf[..wpos])
      ensures !ok ==> buf == old(buf) && wpos == old(wpos)
    {
      if wpos + |data| > |buf| {
        if wpos + |data| > max { return false; }
        buf := buf + seq(wpos + |data| - |buf|, i => 0);
      }
      buf := buf[..wpos] + data + buf[wpos + |data|..];
      wpos := wpos + |data|;
      return true;
    }

    // ibuf_truncate: shorten, or pad with zeros.
    method Truncate(len: nat) returns (ok: bool)
      requires Valid()
      modifies this`buf, this`wpos
      ensures Valid() && ok == (rpos + len <= max)
      ensures ok ==> |Data()| == len
      ensures ok && len <= old(|Data()|) ==> Data() == old(Data())[..len]
      ensures ok && len > old(|Data()|) ==> Data() == old(Data()) + seq(len - old(|Data()|), i => 0)
      ensures !ok ==> Data() == old(Data())
    {
      if wpos - rpos >= len {
        wpos := rpos + len;
        return true;
      }
      ok := Add(seq(len - (wpos - rpos), i => 0));
    }

    // Marking the first n bytes as sent, the descriptor having gone out before.
    method Advance(n: nat)
      requires Valid() && n < |Data()| && fd == -1
      modifies this`rpos
      ensures Valid() && rpos < wpos && Tagged(Data(), fd) == old(Tagged(Data(), fd))[n..]
    {
      hide Tagged;
      ghost var d := Data();
      TaggedDrop(d, n);
      rpos := rpos + n;
      assert Data() == d[n..];
    }

    // ibuf_get
    method Get(len: nat) returns (ok: bool, data: seq<byte>)
      requires Valid()
      modifies this`rpos
      ensures Valid() && ok == (len <= old(|Data()|))
      ensures ok ==> data + Data() == old(Data()) && |data| == len
      ensures !ok ==> Data() == old(Data())
    {
      if wpos - rpos < len { return false, []; }
      data := buf[rpos..rpos + len];
      rpos := rpos + len;
      ok := true;
    }
  }

  // A buffer in a write queue still has something to send.
  ghost predicate Sendable(b: Ibuf)
    reads b
  {
    b.Valid() && b.rpos < b.wpos
  }

  ghost function BufCells(b: Ibuf): seq<Cell>
    reads b
  {
    Tagged(b.Data(), b.fd)
  }

  // What a queue of buffers will put on the wire.
  ghost function QueueCells(bs: seq<Ibuf>): seq<Cell>
    reads bs
  {
    if bs == [] then [] else BufCells(bs[0]) + QueueCells(bs[1..])
  }

  ghost predicate ValidQueue(bs: seq<Ibuf>)
    reads bs
  {
    (forall i :: 0 <= i < |bs| ==> Sendable(bs[i])) && (forall i, j :: 0 <= i < j < |bs| ==> bs[i] != bs[j])
  }

  lemma {:induction false} QueueAppend(a: seq<Ibuf>, b: seq<Ibuf>)
    ensures QueueCells(a + b) == QueueCells(a) + QueueCells(b)
  {
    hide BufCells;
    if a == [] {
      assert a + b == b;
    } else {
      QueueAppend(a[1..], b);
      assert (a + b)[1..] == a[1..] + b;
      Assoc(BufCells(a[0]), QueueCells(a[1..]), QueueCells(b));
    }
  }

  lemma {:induction false} QueueOne(b: Ibuf)
    ensures QueueCells([b]) == BufCells(b)
  {
    assert BufCells(b) + [] == BufCells(b);
  }

  // struct msgbuf
  class Msgbuf {
    var bufs: seq<Ibuf>
    var queued: nat

    ghost predicate Valid()
      reads this, bufs
    {
      ValidQueue(bufs) && queued == |bufs|
    }

    ghost function Cells(): seq<Cell>
      reads this, bufs
    {
      QueueCells(bufs)
    }

    constructor ()
      ensures Valid() && bufs == [] && Cells() == []
    {
      bufs, queued := [], 0;
    }

    // ibuf_close
    method Enqueue(b: Ibuf)
      requires Valid() && Sendable(b) && b !in bufs
      modifies this
      ensures Valid() && bufs == old(bufs) + [b] && Cells() == old(Cells()) + BufCells(b)
    {
      QueueAppend(bufs, [b]);
      QueueOne(b);
      bufs := bufs + [b];
      queued := queued + 1;
    }

    // msgbuf_drain: exactly the first n cells, or all, go; none of them may carry a descriptor.
    method Drain(n0: nat, ghost own: set<Ibuf>)
      requires Valid() && (forall b :: b in bufs ==> b in own)
      requires forall i :: 0 <= i < n0 && i < |Cells()| ==> Cells()[i].fd == -1
      modifies this, own
      ensures Valid() && Cells() == old(Cells())[Min(n0, |old(Cells())|)..] && (forall b :: b in bufs ==> b in old(bufs))
    {
      hide QueueCells, ValidQueue;
      var n: nat := n0;
      ghost var all, bs := Cells(), bufs;
      EmptyQueue();
      while bufs != [] && n > 0
        invariant Valid() && n <= n0 <= |all| + n && Cells() == all[n0 - n..]
        invariant forall b :: b in bufs ==> b in bs
        decreases n
      {
        assert forall i :: 0 <= i < n && i < |Cells()| ==> Cells()[i] == all[n0 - n + i];
        ghost var m := n;
        assert bufs[0] in bufs;
        n := DrainFirst(bufs[0], n);
        assert all[n0 - m..][m - n..] == all[n0 - n..];
      }
    }

    // One round of msgbuf_drain's loop.
    method DrainFirst(b: Ibuf, n: nat) returns (left: nat)
      requires Valid() && bufs != [] && b == bufs[0] && 0 < n && forall i :: 0 <= i < n && i < |Cells()| ==> Cells()[i].fd == -1
      modifies this, b`rpos
      ensures Valid() && left < n <= |old(Cells())| + left && Cells() == old(Cells())[n - left..]
      ensures forall b :: b in bufs ==> b in old(bufs)
    {
      hide BufCells;
      ghost var all, rest := Cells(), QueueCells(bufs[1..]);
      FirstCells(b);
      assert all == BufCells(b) + rest;
      if n >= b.wpos - b.rpos {
        left := n - (b.wpos - b.rpos);
        bufs := bufs[1..];
        queued := queued - 1;
        assert all[n - left..] == rest;
      } else {
        assert all[0] == BufCells(b)[0];
        AdvanceFirst(b, n, rest);
        left := 0;
      }
    }

    method AdvanceFirst(b: Ibuf, n: nat, ghost rest: seq<Cell>)
      requires Valid() && bufs != [] && b == bufs[0] && n < |b.Data()| && b.fd == -1 && rest == QueueCells(bufs[1..])
      modifies b`rpos
      ensures Valid() && Cells() == old(BufCells(b))[n..] + rest
    {
      b.Advance(n);
      assert QueueCells(bufs[1..]) == rest;
    }

    // The buffers one sendmsg call offers: up to IOV_MAX, and a descriptor only with the first.
    method Batch() returns (i: nat, total: nat, buf0: Ibuf?)
      requires Valid()
      ensures i <= |bufs| && i <= IOV_MAX && (bufs != [] ==> i > 0) && total == |QueueCells(bufs[..i])|
      ensures forall k :: 0 < k < i ==> bufs[k].fd == -1
      ensures buf0 == if bufs != [] && bufs[0].fd != -1 then bufs[0] else null
    {
      hide QueueCells, BufCells;
      i, total, buf0 := 0, 0, null;
      EmptyQueue();
      while i < |bufs|
        invariant i <= |bufs| && i <= IOV_MAX && total == |QueueCells(bufs[..i])|
        invariant forall k :: 0 < k < i ==> bufs[k].fd == -1
        invariant buf0 == if i > 0 && bufs[0].fd != -1 then bufs[0] else null
      {
        if i >= IOV_MAX { break; }
        if i > 0 && bufs[i].fd != -1 { break; }
        FirstCells(bufs[i]);
        assert bufs[..i + 1] == bufs[..i] + [bufs[i]];
        QueueAppend(bufs[..i], [bufs[i]]);
        QueueOne(bufs[i]);
        total := total + (bufs[i].wpos - bufs[i].rpos);
        i := i + 1;
        if bufs[i - 1].fd != -1 {
          buf0 := bufs[i - 1];
        }
      }
    }

    // msgbuf_write, where sendmsg takes up to accept bytes, or fails if that is negative.
    // What goes out is a prefix of the queue with a descriptor at most on its first byte.
    method Write(accept: int, ghost own: set<Ibuf>) returns (r: int, ghost sent: seq<Cell>)
      requires Valid() && forall b :: b in bufs ==> b in own
      modifies this, own
      ensures Valid() && (forall b :: b in bufs ==> b in old(bufs))
      ensures sent + Cells() == old(Cells()) && (sent != [] ==> Fds(sent[1..]) == [])
      ensures r == if accept < 0 then -1 else if accept == 0 || old(bufs) == [] then 0 else 1
      ensures (sent != [] <==> r == 1) && (r != 1 ==> bufs == old(bufs))
    {
      hide QueueCells, BufCells, ValidQueue, Fds;
      sent := [];
      var i, total, buf0 := Batch();
      if accept < 0 { return -1, sent; }
      var n := if accept < total then accept else total;
      BatchCells(bufs, i);
      if n == 0 { return 0, sent; }
      sent := Cells()[..n];
      BatchFds(bufs, i, n);
      ghost var rest := Cells()[n..];
      if buf0 != null {
        assert buf0 in bufs;
        ClearFd(buf0);
      }
      Drain(n, own);
      assert sent + rest == old(Cells());
      r := 1;
    }

    // The descriptor has gone out with the first byte; the bytes stay as they are.
    method ClearFd(b: Ibuf)
      requires Valid() && bufs != [] && b == bufs[0]
      modifies b`fd
      ensures Valid() && Cells() != [] && Cells() == [Cell(old(Cells())[0].b, -1)] + old(Cells())[1..]
    {
      hide Tagged, QueueCells;
      ghost var rest := QueueCells(bufs[1..]);
      FirstCells(b);
      ghost var c := BufCells(b);
      ClearOne(b.Data(), b.fd);
      QueueHead(bufs);
      ClearRest(c, rest);
      b.fd := -1;
      QueueHead(bufs);
      assert QueueCells(bufs[1..]) == rest;
    }

    // imsg_flush, where the k-th sendmsg call takes up to accept(k) bytes. It ends: every
    // write that does not end the call moves at least one byte.
    method Flush(accept: nat -> int) returns (r: int, ghost sent: seq<Cell>)
      requires Valid()
      modifies this, bufs
      ensures Valid() && sent + Cells() == old(Cells())
      ensures r == 0 || r == -1
      ensures r == 0 <==> bufs == []
    {
      hide QueueCells, BufCells, ValidQueue, Fds;
      sent := [];
      ghost var own := set b | b in bufs;
      var k := 0;
      while queued > 0
        invariant Valid() && sent + Cells() == old(Cells())
        invariant forall b :: b in bufs ==> b in own
        decreases |Cells()|
      {
        ghost var before := Cells();
        var w, part := Write(accept(k), own);
        assert (sent + part) + Cells() == sent + before;
        sent := sent + part;
        if w <= 0 { return -1, sent; }
        k := k + 1;
      }
      r := 0;
    }
  }

  lemma {:induction false} BatchCells(bs: seq<Ibuf>, i: nat)
    requires i <= |bs|
    ensures |QueueCells(bs[..i])| <= |QueueCells(bs)| && QueueCells(bs)[..|QueueCells(bs[..i])|] == QueueCells(bs[..i])
    ensures ValidQueue(bs) && i > 0 ==> QueueCells(bs[..i]) != []
    ensures ValidQueue(bs) && i == 0 ==> QueueCells(bs[..i]) == []
  {
    hide BufCells;
    assert bs == bs[..i] + bs[i..];
    QueueAppend(bs[..i], bs[i..]);
    if ValidQueue(bs) && i > 0 { FirstCells(bs[0]); }
  }

  // In a batch only the first cell can carry a descriptor.
  lemma {:induction false} BatchFds(bs: seq<Ibuf>, i: nat, n: nat)
    requires ValidQueue(bs) && 0 < i <= |bs| && 0 < n <= |QueueCells(bs[..i])| <= |QueueCells(bs)|
    requires forall k :: 0 < k < i ==> bs[k].fd == -1
    requires QueueCells(bs)[..|QueueCells(bs[..i])|] == QueueCells(bs[..i])
    ensures forall k :: 0 < k < n ==> QueueCells(bs)[k].fd == -1
    ensures QueueCells(bs)[0].fd == bs[0].fd && Fds(QueueCells(bs)[..n][1..]) == []
  {
    var b, c := bs[..i], QueueCells(bs[..i]);
    BatchTail(b);
    var e := QueueCells(bs);
    assert forall k :: 0 <= k < |c| ==> e[k] == e[..|c|][k];
    var d := e[..n][1..];
    assert forall k :: 0 <= k < |d| ==> d[k] == c[k + 1];
    FdsNone(d);
  }

  lemma {:induction false} BatchTail(b: seq<Ibuf>)
    requires b != [] && Sendable(b[0]) && forall k :: 0 < k < |b| ==> b[k].fd == -1
    ensures |QueueCells(b)| > 0 && QueueCells(b)[0].fd == b[0].fd
    ensures forall k :: 0 < k < |QueueCells(b)| ==> QueueCells(b)[k].fd == -1
  {
    FirstCells(b[0]);
    NoFds(b[1..]);
  }

  lemma {:induction false} NoFds(bs: seq<Ibuf>)
    requires forall k :: 0 <= k < |bs| ==> bs[k].fd == -1
    ensures forall k :: 0 <= k < |QueueCells(bs)| ==> QueueCells(bs)[k].fd == -1
  {
    if bs != [] {
      NoFds(bs[1..]);
      TaggedPlain(bs[0].Data());
    }
  }

  lemma {:induction false} FdsNone(c: seq<Cell>)
    requires forall k :: 0 <= k < |c| ==> c[k].fd == -1
    ensures Fds(c) == []
  {
    if c != [] { FdsNone(c[1..]); }
  }

  lemma {:induction false} ClearOne(s: seq<byte>, fd: int)
    requires s != []
    ensures Tagged(s, -1) == [Cell(Tagged(s, fd)[0].b, -1)] + Tagged(s, fd)[1..]
  {
  }

  lemma {:induction false} ClearRest(c: seq<Cell>, rest: seq<Cell>)
    requires c != []
    ensures ([Cell(c[0].b, -1)] + c[1..]) + rest == [Cell((c + rest)[0].b, -1)] + (c + rest)[1..]
  {
  }

  lemma {:induction false} QueueHead(bs: seq<Ibuf>)
    requires bs != []
    ensures QueueCells(bs) == BufCells(bs[0]) + QueueCells(bs[1..])
  {
  }

  lemma {:induction false} TaggedDrop(s: seq<byte>, n: nat)
    requires n < |s|
    ensures Tagged(s, -1)[n..] == Tagged(s[n..], -1)
  {
    TaggedPlain(s);
    TaggedPlain(s[n..]);
    assert Plain(s)[n..] == Plain(s[n..]);
  }

  lemma {:induction false} EmptyQueue()
    ensures QueueCells([]) == []
  {
  }

  lemma {:induction false} FirstCells(b: Ibuf)
    requires Sendable(b)
    ensures |BufCells(b)| == b.wpos - b.rpos == |b.Data()| > 0 && BufCells(b)[0].fd == b.fd
  {
  }

  lemma {:induction false} TaggedPlain(s: seq<byte>)
    ensures Tagged(s, -1) == Plain(s)
  {
  }

  /*** struct imsgbuf ***/

  class Imsgbuf {
    const w: Msgbuf
    const pid: nat
    const rbuf: array<byte>
    var rwpos: nat
    var fds: seq<int>

    ghost predicate Valid()
      reads this, w, w.bufs
    {
      w.Valid() && 0 < pid < 0x1_0000_0000 && rbuf.Length == IBUF_READ_SIZE && rwpos <= rbuf.Length
    }

    ghost function Unread(): seq<byte>
      reads this, rbuf
    {
      if rwpos <= rbuf.Length then rbuf[..rwpos] else []
    }

    // imsg_init
    constructor (pid: nat)
      requires 0 < pid < 0x1_0000_0000
      ensures Valid() && this.pid == pid && w.bufs == [] && w.Cells() == [] && Unread() == [] && fds == [] && fresh(w) && fresh(rbuf)
    {
      w := new Msgbuf();
      this.pid := pid;
      rbuf := new byte[IBUF_READ_SIZE](i => 0);
      rwpos, fds := 0, [];
    }

    function Sender(pid: nat): nat {
      if pid == 0 then this.pid else pid
    }

    // imsg_create; junk is the length field, which stays unset until imsg_close.
    method Create(typ: nat, id: nat, pid: nat, datalen: nat, junk: nat) returns (wbuf: Ibuf?)
      requires Valid() && typ < 0x1_0000_0000 && id < 0x1_0000_0000 && pid < 0x1_0000_0000 && junk < 0x1_0000
      ensures wbuf == null <==> IMSG_HEADER_SIZE + datalen > MAX_IMSGSIZE
      ensures wbuf != null ==> fresh(wbuf) && wbuf.Valid() && wbuf.rpos == 0 && wbuf.fd == -1 && wbuf.max == MAX_IMSGSIZE
      ensures wbuf != null ==> wbuf.Data() == EncodeHeader(Header(typ, junk, 0, id, Sender(pid)))
    {
      if datalen + IMSG_HEADER_SIZE > MAX_IMSGSIZE { return null; }
      var hdr := Header(typ, junk, 0, id, Sender(pid));
      wbuf := new Ibuf(datalen + IMSG_HEADER_SIZE, MAX_IMSGSIZE);
      var ok := wbuf.Add(EncodeHeader(hdr));
      assert [] + EncodeHeader(hdr) == EncodeHeader(hdr);
    }

    // imsg_close: the header gets its flag and length, and the buffer is queued.
    method Close(msg: Ibuf, ghost h: Header, ghost data: seq<byte>)
      requires Valid() && msg.Valid() && msg.rpos == 0 && msg !in w.bufs && msg.max == MAX_IMSGSIZE
      requires ValidHeader(h) && h.flags == 0 && msg.Data() == EncodeHeader(h) + data
      modifies w, msg`buf
      ensures Valid() && w.bufs == old(w.bufs) + [msg] && IMSG_HEADER_SIZE + |data| <= MAX_IMSGSIZE
      ensures w.Cells() == old(w.Cells()) + MessageCells(Message(h.typ, h.peerid, h.pid, msg.fd, data))
    {
      hide EncodeHeader, DecodeHeader, QueueCells, Tagged;
      ghost var m := Message(h.typ, h.peerid, h.pid, msg.fd, data);
      ghost var cells := w.Cells();
      assert msg.Data() == msg.buf[..msg.wpos];
      assert msg.buf[..msg.wpos][..IMSG_HEADER_SIZE] == EncodeHeader(h);
      assert msg.buf == EncodeHeader(h) + msg.buf[IMSG_HEADER_SIZE..];
      HeaderRoundTrip(h, msg.buf[IMSG_HEADER_SIZE..]);
      var hdr := DecodeHeader(msg.buf);
      hdr := hdr.(flags := if msg.fd != -1 then IMSGF_HASFD else 0, len := msg.wpos - msg.rpos);
      assert hdr == HeaderOf(m);
      msg.buf := EncodeHeader(hdr) + msg.buf[IMSG_HEADER_SIZE..];
      assert msg.Data() == Encode(m);
      assert w.Cells() == cells && w.Valid();
      w.Enqueue(msg);
    }

    // imsg_compose: a message that fits is queued as a whole, any other is refused.
    method Compose(typ: nat, id: nat, pid: nat, fd: int, data: seq<byte>, junk: nat) returns (ok: bool)
      requires Valid() && typ < 0x1_0000_0000 && id < 0x1_0000_0000 && pid < 0x1_0000_0000 && junk < 0x1_0000
      modifies w
      ensures Valid() && ok == (IMSG_HEADER_SIZE + |data| <= MAX_IMSGSIZE)
      ensures ok ==> w.Cells() == old(w.Cells()) + MessageCells(Message(typ, id, Sender(pid), fd, data))
      ensures !ok ==> w.bufs == old(w.bufs) && w.Cells() == old(w.Cells())
      ensures forall b :: b in w.bufs ==> b in old(w.bufs) || fresh(b)
    {
      ok := ComposeV(typ, id, pid, fd, [data], junk);
      FlattenOne(data);
    }

    // imsg_composev: the same for data given in pieces.
    method ComposeV(typ: nat, id: nat, pid: nat, fd: int, iov: seq<seq<byte>>, junk: nat) returns (ok: bool)
      requires Valid() && typ < 0x1_0000_0000 && id < 0x1_0000_0000 && pid < 0x1_0000_0000 && junk < 0x1_0000
      modifies w
      ensures Valid() && ok == (IMSG_HEADER_SIZE + |Flatten(iov)| <= MAX_IMSGSIZE)
      ensures ok ==> w.Cells() == old(w.Cells()) + MessageCells(Message(typ, id, Sender(pid), fd, Flatten(iov)))
      ensures !ok ==> w.bufs == old(w.bufs) && w.Cells() == old(w.Cells())
      ensures forall b :: b in w.bufs ==> b in old(w.bufs) || fresh(b)
    {
      hide EncodeHeader, MessageCells, QueueCells, Flatten;
      var datalen := TotalLength(iov);
      var wbuf := Create(typ, id, pid, datalen, junk);
      if wbuf == null { return false; }
      ghost var h := Header(typ, junk, 0, id, Sender(pid));
      assert wbuf !in w.bufs;
      AddAll(wbuf, iov, EncodeHeader(h));
      wbuf.fd := fd;
      assert Valid() && w.Cells() == old(w.Cells());
      Close(wbuf, h, Flatten(iov));
      ok := true;
    }

    static method TotalLength(iov: seq<seq<byte>>) returns (n: nat)
      ensures n == |Flatten(iov)|
    {
      n := 0;
      assert iov[..0] == [] && Flatten(iov[..0]) == [] by { FlattenNone<byte>(); }
      for i := 0 to |iov|
        invariant n == |Flatten(iov[..i])|
      {
        FlattenAppend(iov, i);
        n := n + |iov[i]|;
      }
      assert iov[..|iov|] == iov;
    }

    // imsg_add of every piece, behind what the buffer holds.
    static method AddAll(wbuf: Ibuf, iov: seq<seq<byte>>, ghost before: seq<byte>)
      requires wbuf.Valid() && wbuf.Data() == before && wbuf.rpos == 0 && |before| + |Flatten(iov)| <= wbuf.max
      modifies wbuf
      ensures wbuf.Valid() && wbuf.rpos == 0 && wbuf.max == old(wbuf.max) && wbuf.fd == old(wbuf.fd)
      ensures wbuf.Data() == before + Flatten(iov)
    {
      hide Flatten;
      assert iov[..0] == [] && Flatten(iov[..0]) == [] && before + [] == before by { FlattenNone<byte>(); }
      for i := 0 to |iov|
        invariant wbuf.Valid() && wbuf.rpos == 0 && wbuf.max == old(wbuf.max) && wbuf.fd == old(wbuf.fd)
        invariant wbuf.Data() == before + Flatten(iov[..i])
      {
        FlattenPrefix(iov, i + 1);
        FlattenStep(before, iov, i);
        var added := wbuf.Add(iov[i]);
      }
      assert iov[..|iov|] == iov;
    }

    // imsg_compose_ibuf for a non-empty payload without a descriptor: header and payload
    // are queued as two buffers, which look the same on the wire.
    method ComposeIbuf(typ: nat, id: nat, pid: nat, buf: Ibuf) returns (ok: bool)
      requires Valid() && typ < 0x1_0000_0000 && id < 0x1_0000_0000 && pid < 0x1_0000_0000
      requires Sendable(buf) && buf.fd == -1 && buf !in w.bufs
      modifies w
      ensures Valid() && ok == (IMSG_HEADER_SIZE + |buf.Data()| <= MAX_IMSGSIZE)
      ensures ok ==> w.Cells() == old(w.Cells()) + MessageCells(Message(typ, id, Sender(pid), -1, buf.Data()))
      ensures !ok ==> w.bufs == old(w.bufs) && w.Cells() == old(w.Cells())
      ensures forall b :: b in w.bufs ==> b in old(w.bufs) || b == buf || fresh(b)
    {
      hide EncodeHeader, QueueCells, MessageCells, BufCells;
      if buf.wpos - buf.rpos + IMSG_HEADER_SIZE > MAX_IMSGSIZE { return false; }
      var hdr := Header(typ, buf.wpos - buf.rpos + IMSG_HEADER_SIZE, 0, id, Sender(pid));
      ghost var m := Message(typ, id, Sender(pid), -1, buf.Data());
      ghost var cells := w.Cells();
      var hdrbuf := HeaderBuf(hdr);
      PairCells(m, hdrbuf, buf);
      QueuePair(hdrbuf, buf);
      ok := true;
    }

    static method HeaderBuf(hdr: Header) returns (b: Ibuf)
      requires ValidHeader(hdr)
      ensures fresh(b) && Sendable(b) && b.fd == -1 && b.Data() == EncodeHeader(hdr)
    {
      hide EncodeHeader;
      b := new Ibuf(IMSG_HEADER_SIZE, IMSG_HEADER_SIZE);
      var added := b.Add(EncodeHeader(hdr));
      assert [] + EncodeHeader(hdr) == EncodeHeader(hdr);
    }

    method QueuePair(a: Ibuf, b: Ibuf)
      requires Valid() && Sendable(a) && Sendable(b) && a != b && a !in w.bufs && b !in w.bufs
      modifies w
      ensures Valid() && w.bufs == old(w.bufs) + [a] + [b]
      ensures w.Cells() == old(w.Cells()) + (BufCells(a) + BufCells(b))
    {
      hide QueueCells, BufCells;
      ghost var cells := w.Cells();
      w.Enqueue(a);
      w.Enqueue(b);
      assert (cells + BufCells(a)) + BufCells(b) == cells + (BufCells(a) + BufCells(b));
    }

    // imsg_read after a recvmsg that returned data and, in its control buffer, rights:
    // the first descriptor is queued, any further one is closed.
    method Read(data: seq<byte>, rights: seq<int>) returns (closed: seq<int>)
      requires Valid() && |data| <= IBUF_READ_SIZE - rwpos
      modifies this, rbuf
      ensures Valid() && Unread() == old(Unread()) + data
      ensures rights == [] ==> fds == old(fds) && closed == []
      ensures rights != [] ==> fds == old(fds) + [rights[0]] && closed == rights[1..]
    {
      ghost var before := Unread();
      forall i | 0 <= i < |data| {
        rbuf[rwpos + i] := data[i];
      }
      rwpos := rwpos + |data|;
      assert Unread() == before + data;
      closed := [];
      var stored := false;
      for i := 0 to |rights|
        modifies `fds
        invariant stored == (i > 0)
        invariant i == 0 ==> fds == old(fds) && closed == []
        invariant i > 0 ==> fds == old(fds) + [rights[0]] && closed == rights[1..i]
      {
        if !stored {
          fds := fds + [rights[i]];
          stored := true;
        } else {
          closed := closed + [rights[i]];
        }
      }
    }

    // The message of len bytes at the front is cut off, and the rest moves up.
    method Shift(len: nat)
      requires len <= rwpos <= rbuf.Length
      modifies `rwpos, rbuf
      ensures rwpos <= rbuf.Length && Unread() == old(Unread())[len..]
    {
      if len < rwpos {
        var left := rwpos - len;
        forall i | 0 <= i < left {
          rbuf[i] := rbuf[len + i];
        }
        rwpos := left;
      } else {
        rwpos := 0;
      }
    }

    // imsg_get: the result is 0, -1 or the length of the message taken off the buffer.
    method GetMessage() returns (r: int, m: Message)
      requires Valid()
      modifies this, rbuf
      ensures Valid()
      ensures var g := Get(old(Unread()), old(fds));
              match g
              case Incomplete => r == 0 && Unread() == old(Unread()) && fds == old(fds)
              case BadLength => r == -1 && Unread() == old(Unread()) && fds == old(fds)
              case Got(msg, rest, fds') => r == IMSG_HEADER_SIZE + |msg.data| && m == msg && Unread() == rest && fds == fds'
    {
      hide DecodeHeader;
      m := Message(0, 0, 0, -1, []);
      var av := rwpos;
      if IMSG_HEADER_SIZE > av { return 0, m; }
      var u := rbuf[..rwpos];
      var hdr := DecodeHeader(u);
      if hdr.len < IMSG_HEADER_SIZE || hdr.len > MAX_IMSGSIZE { return -1, m; }
      if hdr.len > av { return 0, m; }
      var data := u[IMSG_HEADER_SIZE..hdr.len];
      var fd := -1;
      if hdr.flags % 2 == 1 && fds != [] {
        fd := fds[0];
        fds := fds[1..];
      }
      Shift(hdr.len);
      m := Message(hdr.typ, hdr.peerid, hdr.pid, fd, data);
      r := |data| + IMSG_HEADER_SIZE;
    }
  }

  lemma {:induction false} PairCells(m: Message, h: Ibuf, b: Ibuf)
    requires ValidMessage(m) && m.fd == -1 && h.fd == -1 && b.fd == -1 && b.Data() == m.data != []
    requires h.Data() == EncodeHeader(HeaderOf(m))
    ensures BufCells(h) + BufCells(b) == MessageCells(m)
  {
    hide EncodeHeader, Tagged;
    TwoBuffers(h.Data(), b.Data());
  }

  lemma {:induction false} TwoBuffers(a: seq<byte>, b: seq<byte>)
    requires a != [] && b != []
    ensures Tagged(a, -1) + Tagged(b, -1) == Tagged(a + b, -1)
  {
    hide Tagged;
    TaggedPlain(a);
    TaggedPlain(b);
    TaggedPlain(a + b);
    assert Plain(a) + Plain(b) == Plain(a + b);
  }
}
