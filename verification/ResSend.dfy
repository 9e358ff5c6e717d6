/** One DNS query from start to end (openbsd-compat/libasr/res_send_async.c): the state
    machine that goes from nameserver to nameserver, over UDP and, after a truncated
    answer, TCP. What the system calls return is an arbitrary function of time. */
module ResSend {
  import opened Common
  import opened Modular
  import opened Dname
  import opened DnsPacket
  import opened DnsQuery

  datatype State = INIT | NEXT_NS | UDP_SEND | UDP_RECV | TCP_WRITE | TCP_READ | PACKET | HALT

  datatype Wait = WANT_READ | WANT_WRITE

  datatype HErrno = NETDB_SUCCESS | HOST_NOT_FOUND | TRY_AGAIN | NO_RECOVERY | NO_DATA

  // What the system calls of one step return. Sizes are cut to what was asked for.
  datatype Io = Io(
    sock: int,             // sockaddr_connect: -1 or the new descriptor
    sendFails: bool,       // send, sendmsg
    sent: nat,             // sendmsg
    recvFails: bool,       // recv, read
    data: seq<byte>,       // recv, first read
    pollFails: bool, pollReady: bool,
    moreFails: bool,
    more: seq<byte>,       // second read
    allocFails: bool,      // recallocarray
    err: Errno)            // errno of the call that failed

  // Failing calls leave an errno, and none of those used leaves EOVERFLOW.
  ghost predicate GoodIo(io: Io) {
    io.sock >= -1 && io.err != NoError && io.err != EOVERFLOW
  }

  ghost predicate GoodEnv(env: nat -> Io) {
    forall k :: GoodIo(env(k))
  }

  // The nameservers in turn, round after round.
  ghost predicate Cyclic(turns: seq<nat>, n: nat) {
    n == 0 || forall i :: 0 <= i < |turns| ==> turns[i] == i % n + 1
  }

  // A packet that may be handed out, with its response code and answer count.
  predicate Delivered(p: seq<byte>, w: Wanted, igntc: bool, rcode: nat, ancount: nat) {
    && (Validate(p, w, igntc) == NoError || (igntc && Validate(p, w, igntc) == EOVERFLOW))
    && |p| >= HFIXEDSZ && rcode == HeaderAt(p).flags % 16 && ancount == HeaderAt(p).ancount
  }

  // The packet without the AD bit.
  function ClearAd(p: seq<byte>): (q: seq<byte>)
    requires |p| >= HFIXEDSZ
    ensures |q| == |p|
  {
    var flags := HeaderAt(p).flags;
    p[..2] + Net16(if Flag(flags, AD_MASK) then flags - AD_MASK else flags) + p[4..]
  }

  function Verdict(rcode: nat, ancount: nat): HErrno {
    if ancount > 0 then NETDB_SUCCESS
    else if rcode == 3 then HOST_NOT_FOUND
    else if rcode == 2 then TRY_AGAIN
    else if rcode == 0 then NO_DATA
    else NO_RECOVERY
  }

  // Lexicographic order of the termination measure.
  predicate Less(a: (nat, nat, nat), b: (nat, nat, nat)) {
    a.0 < b.0 || (a.0 == b.0 && (a.1 < b.1 || (a.1 == b.1 && a.2 < b.2)))
  }

  // What comes of one attempt to read from a TCP connection after the bytes got: an error,
  // more bytes but no whole packet yet, or a packet.
  datatype Heard = Failed(e: Errno) | More(got: seq<byte>) | Whole(p: seq<byte>)

  function HeardTcp(got: seq<byte>, size: nat, io: Io): Heard {
    if |got| >= 2 then HeardRest(got, io)
    else if io.recvFails then Failed(io.err)
    else
      var g := got + io.data[..Min(|io.data|, 2 - |got|)];
      if g == got then Failed(ECONNRESET)
      else if |g| < 2 then More(g)
      else if size < Num16(g) && io.allocFails then Failed(ENOMEM)
      else if io.pollFails then Failed(io.err)
      else if !io.pollReady then More(g)
      else HeardRest(g, io)
  }

  function HeardRest(got: seq<byte>, io: Io): Heard
    requires |got| >= 2
  {
    var left := Max(0, Num16(got[..2]) + 2 - |got|);
    var d := io.more[..Min(|io.more|, left)];
    if io.moreFails then Failed(io.err)
    else if d == [] then Failed(ECONNRESET)
    else if |d| < left then More(got + d)
    else Whole((got + d)[2..])
  }

  // Whatever the pieces, the bytes heard are those sent: what was got is a beginning of what
  // is got later, and a packet is whole exactly when its length says so.
  lemma {:induction false} HeardInOrder(got: seq<byte>, size: nat, io: Io)
    requires |got| >= 2 ==> |got| <= Num16(got[..2]) + 2
    ensures var h := HeardTcp(got, size, io);
            && (h.More? ==> got < h.got && (|h.got| > 2 ==> |h.got| < Num16(h.got[..2]) + 2))
            && (h.Whole? ==> |h.p| < 0x1_0000 && got < Framed(h.p))
  {
    hide Num16, Framed, HeardRest;
    if |got| >= 2 {
      RestInOrder(got, io);
    } else {
      var g := got + io.data[..Min(|io.data|, 2 - |got|)];
      if |g| == 2 {
        assert g[..2] == g;
        RestInOrder(g, io);
      }
    }
  }

  lemma {:induction false} RestInOrder(got: seq<byte>, io: Io)
    requires 2 <= |got| <= Num16(got[..2]) + 2
    ensures var h := HeardRest(got, io);
            && (h.More? ==> got < h.got && |h.got| < Num16(h.got[..2]) + 2)
            && (h.Whole? ==> |h.p| < 0x1_0000 && got < Framed(h.p))
  {
    hide Num16, Net16;
    var d := io.more[..Min(|io.more|, Max(0, Num16(got[..2]) + 2 - |got|))];
    assert (got + d)[..2] == got[..2];
    NumBack(got[..2]);
    NumBound(got[..2]);
    assert got + d == got[..2] + (got + d)[2..];
  }

  lemma {:induction false} NumBound(s: seq<byte>)
    requires |s| == 2
    ensures Num16(s) < 0x1_0000
  {
  }

  // What can be seen of a query between two steps.
  datatype View = View(state: State, open: bool, turns: nat, got: seq<byte>, sent: seq<byte>, size: nat,
                       packet: seq<byte>, errno: Errno, data: Option<seq<byte>>, ns: nat)

  class Query {
    // the context and the query
    const nscount: nat
    const nsretries: nat
    const nstimeout: nat
    const useVc: bool
    const igntc: bool
    const trustAd: bool
    const obuf: seq<byte>
    const wanted: Wanted

    var state: State
    var fd: int
    var nsidx: nat
    var nsloop: nat
    var timeout: nat
    var datalen: nat
    var pktlen: seq<byte>
    var ibuf: seq<byte>
    var ibuflen: nat
    var rcode: nat
    var ancount: nat

    // the result
    var errno: Errno
    var hErrno: HErrno
    var data: Option<seq<byte>>
    var ns: nat

    // the nameservers used so far, and the sockets now open
    ghost var turns: seq<nat>
    ghost var open: set<int>

    // the bytes sent and received on the current TCP connection
    ghost var sent: seq<byte>
    ghost var got: seq<byte>
    ghost var viaTcp: bool

    constructor (nscount: nat, nsretries: nat, nstimeout: nat, useVc: bool, igntc: bool, trustAd: bool, obuf: seq<byte>, wanted: Wanted)
      requires 0 in wanted.dname
      ensures Valid() && state == INIT && turns == [] && open == {}
      ensures this.nscount == nscount && this.nsretries == nsretries && this.nstimeout == nstimeout && this.igntc == igntc && this.trustAd == trustAd
      ensures this.obuf == obuf && this.wanted == wanted
    {
      this.nscount, this.nsretries, this.nstimeout, this.useVc, this.igntc, this.trustAd := nscount, nsretries, nstimeout, useVc, igntc, trustAd;
      this.obuf, this.wanted := obuf, wanted;
      state, fd, nsidx, nsloop, timeout, datalen, pktlen, ibuf, ibuflen := INIT, -1, 0, 0, 0, 0, [0, 0], [], 0;
      rcode, ancount, errno, hErrno, data, ns := 0, 0, NoError, NO_DATA, None, 0;
      turns, open, sent, got, viaTcp := [], {}, [], [], false;
    }

    ghost predicate Valid()
      reads this
    {
      && 0 in wanted.dname && |pktlen| == 2
      && Turns()
      && fd >= -1 && open == (if fd == -1 then {} else {fd})
      && (state in {INIT, NEXT_NS, UDP_SEND, PACKET, HALT} ==> fd == -1)
      && (state in {UDP_RECV, TCP_READ} ==> fd != -1)
      && (state in {UDP_SEND, UDP_RECV, TCP_WRITE, TCP_READ, PACKET} ==> 1 <= nsidx)
      && (state == INIT ==> turns == [] && nsidx == nsloop == 0) && (state !in {INIT, HALT} ==> nscount > 0)
      && (state == TCP_WRITE && fd != -1 ==> datalen < |obuf| + 2 && sent == Framed(obuf)[..datalen])
      && (state == TCP_READ ==> Reading() && sent == Framed(obuf))
      && (state == PACKET ==> ibuflen <= |ibuf| && Delivered(ibuf[..ibuflen], wanted, igntc, rcode, ancount) && Exchanged())
      && (state == HALT ==> Ended())
    }

    ghost function Now(): View
      reads this
    {
      View(state, fd != -1, |turns|, got, sent, |ibuf|, if ibuflen <= |ibuf| then ibuf[..ibuflen] else [], errno, data, ns)
    }

    // Where a step leads, for each state.
    ghost predicate Follows(s: View, io: Io, t: View) {
      match s.state
      case INIT => t.turns == s.turns && if nscount == 0 then t.state == HALT && t.errno == ECONNREFUSED else t.state == NEXT_NS
      case NEXT_NS =>
        if s.turns == nscount * nsretries then t.turns == s.turns && t.state == HALT && t.errno == ETIMEDOUT
        else t.turns == s.turns + 1 && t.state == if useVc || |obuf| > 512 then TCP_WRITE else UDP_SEND
      case UDP_SEND => t.turns == s.turns && t.state == if io.sock == -1 || io.sendFails then NEXT_NS else UDP_RECV
      case UDP_RECV => t.turns == s.turns && AfterUdp(s, io, t)
      case TCP_WRITE => t.turns == s.turns && AfterWrite(s, io, t)
      case TCP_READ => t.turns == s.turns && AfterRead(s, io, t)
      case PACKET =>
        && t.turns == s.turns && t.state == HALT && t.errno == NoError && nscount > 0 && t.ns == (s.turns - 1) % nscount + 1
        && |s.packet| >= HFIXEDSZ && t.data == Some(if trustAd then s.packet else ClearAd(s.packet))
      case HALT => t.turns == s.turns && t.state == HALT && t.errno == s.errno && t.ns == s.ns && t.data == if s.errno == NoError then s.data else None
    }

    ghost predicate AfterUdp(s: View, io: Io, t: View) {
      var e := Received(io, s.size);
      && t.state == (if e == NoError || (e == EOVERFLOW && igntc) then PACKET
                     else if e == EOVERFLOW then TCP_WRITE
                     else if e == ENOMEM then HALT else NEXT_NS)
      && (t.state == PACKET ==> t.packet == UdpPacket(io, s.size))
      && (t.state == HALT ==> t.errno == ENOMEM)
    }

    ghost predicate AfterWrite(s: View, io: Io, t: View) {
      if !s.open then t.state == (if io.sock == -1 then NEXT_NS else TCP_WRITE) && (t.state == TCP_WRITE ==> t.open && t.sent == [])
      else if io.sendFails then t.state == NEXT_NS
      else
        && |s.sent| < |obuf| + 2
        && var n := |s.sent| + Max(1, Min(io.sent, |obuf| + 2 - |s.sent|));
           t.open && t.sent == Framed(obuf)[..n] && t.state == (if n == |obuf| + 2 then TCP_READ else TCP_WRITE) && (t.state == TCP_READ ==> t.got == [])
    }

    ghost predicate AfterRead(s: View, io: Io, t: View) {
      AfterHeard(HeardTcp(s.got, s.size, io), t)
    }

    ghost predicate AfterHeard(h: Heard, t: View) {
      match h
      case Failed(e) => t.state == (if e == ENOMEM then HALT else NEXT_NS) && (t.state == HALT ==> t.errno == ENOMEM)
      case More(g) => t.state == TCP_READ && t.got == g
      case Whole(p) =>
        var e := Validate(p, wanted, igntc);
        && t.state == (if e == NoError then PACKET else if e == ENOMEM then HALT else NEXT_NS)
        && (t.state == PACKET ==> t.packet == p)
        && (t.state == HALT ==> t.errno == ENOMEM)
    }

    ghost predicate Turns()
      reads `nsidx, `nsloop, `turns
    {
      && nsidx <= nscount && nsloop <= nsretries && (nsloop == nsretries ==> nsidx == 0)
      && |turns| == nscount * nsloop + nsidx <= nscount * nsretries && Cyclic(turns, nscount)
    }

    // How long to wait in turn k, in milliseconds: twice as long in each cycle, shared from the
    // second cycle on by all nameservers, but at least a second.
    function TimeoutOf(k: nat): (ms: nat)
      requires nscount > 0
      ensures ms >= 1000
    {
      var cycle := k / nscount;
      var t := 1000 * (nstimeout * Pow2(cycle));
      Max(1000, if cycle == 0 then t else t / nscount)
    }

    // All of the first cycle wait for the configured time; from the second on, the wait
    // doubles with each cycle, but for rounding.
    lemma {:induction false} WaitDoubles(k: nat)
      requires nscount > 0
      ensures k < nscount ==> TimeoutOf(k) == Max(1000, 1000 * nstimeout)
      ensures nscount == 1 ==> TimeoutOf(k + 1) == Max(1000, 2 * (1000 * (nstimeout * Pow2(k))))
      ensures k >= nscount && TimeoutOf(k) > 1000 ==> TimeoutOf(k + nscount) == 2 * TimeoutOf(k) || TimeoutOf(k + nscount) == 2 * TimeoutOf(k) + 1
    {
      var c, r := k / nscount, k % nscount;
      if k < nscount {
        ModUnique(k, nscount, 0, k);
      }
      MulAdd(nscount, c, 1);
      ModUnique(k + nscount, nscount, c + 1, r);
      var t := 1000 * (nstimeout * Pow2(c));
      assert nstimeout * Pow2(c + 1) == 2 * (nstimeout * Pow2(c)) by { MulAssoc(2, nstimeout, Pow2(c)); MulAssoc(nstimeout, 2, Pow2(c)); }
      HalfShare(t, nscount);
    }

    ghost predicate Reading()
      reads `pktlen, `got, `datalen, `ibuf, `ibuflen
    {
      && |pktlen| == 2 && |got| == datalen
      && if datalen < 2 then got == pktlen[..datalen]
         else ibuflen < 0x1_0000 && ibuflen <= |ibuf| && datalen <= ibuflen + 2 && (datalen == ibuflen + 2 ==> ibuflen == 0)
              && got == Net16(ibuflen) + ibuf[..datalen - 2]
    }

    // Over TCP, query and answer went as whole packets with their lengths in front.
    ghost predicate Exchanged()
      reads `viaTcp, `sent, `got, `ibuf, `ibuflen
    {
      viaTcp ==> sent == Framed(obuf) && ibuflen <= |ibuf| && got == Framed(ibuf[..ibuflen])
    }

    // How a query can end: with a packet, or with an error.
    ghost predicate Ended()
      reads this
    {
      if errno == NoError then
        && data.Some? && ibuflen <= |ibuf| && Delivered(ibuf[..ibuflen], wanted, igntc, rcode, ancount)
        && Exchanged() && 1 <= ns <= nscount && turns != [] && turns[|turns| - 1] == ns
        && data.value == if trustAd then ibuf[..ibuflen] else ClearAd(ibuf[..ibuflen])
      else
        && (errno == ECONNREFUSED <==> nscount == 0)
        && (errno == ETIMEDOUT ==> nscount > 0 && |turns| == nscount * nsretries)
        && errno in {ECONNREFUSED, ETIMEDOUT, ENOMEM}
    }

    // Nameserver turns left, phase of the turn, bytes left.
    ghost function Measure(): (nat, nat, nat)
      requires Valid()
      reads this
    {
      var left := nscount * nsretries - |turns|;
      match state
      case INIT => (left, 9, 0)
      case UDP_SEND => (left, 8, 0)
      case UDP_RECV => (left, 7, 0)
      case TCP_WRITE => if fd == -1 then (left, 6, 0) else (left, 5, |obuf| + 2 - datalen)
      case TCP_READ => (left, 4, BytesLeft(datalen, ibuflen))
      case NEXT_NS => (left, 3, 0)
      case PACKET => (left, 2, 0)
      case HALT => (left, 1, 0)
    }

    /*** System calls ***/

    method Connect(io: Io) returns (sock: int)
      requires GoodIo(io) && open == {}
      modifies `open
      ensures sock == io.sock && open == (if sock == -1 then {} else {sock})
    {
      sock := io.sock;
      if sock != -1 { open := open + {sock}; }
    }

    method Close()
      requires fd in open
      modifies `fd, `open
      ensures fd == -1 && open == old(open) - {old(fd)}
    {
      open := open - {fd};
      fd := -1;
    }

    // ensure_ibuf
    method EnsureIbuf(n: nat, io: Io) returns (ok: bool)
      modifies `ibuf
      ensures ok ==> |ibuf| == Max(n, |old(ibuf)|)
      ensures ok == (|old(ibuf)| >= n || !io.allocFails)
      ensures !ok ==> ibuf == old(ibuf)
    {
      if |ibuf| >= n { return true; }
      if io.allocFails { return false; }
      ibuf := ibuf + seq(n - |ibuf|, i => 0);
      ok := true;
    }

    // memmove of d into the input buffer
    method Store(at: nat, d: seq<byte>)
      requires at + |d| <= |ibuf|
      modifies `ibuf
      ensures ibuf == old(ibuf)[..at] + d + old(ibuf)[at + |d|..]
    {
      ibuf := ibuf[..at] + d + ibuf[at + |d|..];
    }

    /*** The helpers ***/

    // iter_ns: the next nameserver of the cycle, unless all turns are used up, and how long to
    // wait for it.
    method IterNs() returns (ok: bool)
      requires Turns() && nscount > 0
      modifies `nsidx, `nsloop, `turns, `timeout
      ensures Turns() && ok == (|old(turns)| < nscount * nsretries)
      ensures ok ==> 1 <= nsidx <= nscount && turns == old(turns) + [nsidx] && timeout == TimeoutOf(|old(turns)|)
      ensures !ok ==> turns == old(turns) && |turns| == nscount * nsretries
    {
      hide TimeoutOf;
      while true
        invariant Turns() && turns == old(turns)
        decreases nsretries - nsloop
      {
        if nsloop >= nsretries {
          return false;
        }
        MulMono(nscount, nsloop + 1, nsretries);
        MulAdd(nscount, nsloop, 1);
        if nsidx + 1 <= nscount {
          ModUnique(|turns|, nscount, nsloop, nsidx);
          nsidx := nsidx + 1;
          turns := turns + [nsidx];
          SetTimeout(|old(turns)|);
          return true;
        }
        nsidx := 0;
        nsloop := nsloop + 1;
      }
    }

    method SetTimeout(ghost k: nat)
      requires nscount > 0 && nsloop == k / nscount
      modifies `timeout
      ensures timeout == TimeoutOf(k)
    {
      timeout := 1000 * (nstimeout * Pow2(nsloop));
      if nsloop > 0 {
        timeout := timeout / nscount;
      }
      if timeout < 1000 {
        timeout := 1000;
      }
    }

    // udp_send
    method UdpSend(io: Io) returns (ok: bool)
      requires Valid() && state == UDP_SEND && GoodIo(io)
      modifies `fd, `open
      ensures fd >= -1 && open == (if fd == -1 then {} else {fd}) && ok == (fd != -1) && ok == (io.sock != -1 && !io.sendFails)
    {
      fd := Connect(io);
      if fd == -1 { return false; }
      if io.sendFails {
        Close();
        return false;
      }
      ok := true;
    }

    function UdpPacket(io: Io, size: nat): seq<byte> {
      io.data[..Min(|io.data|, Max(size, MAXPACKETSZ))]
    }

    // What comes of a receive into a buffer of the given size, which grows to MAXPACKETSZ.
    function Received(io: Io, size: nat): Errno {
      if size < MAXPACKETSZ && io.allocFails then ENOMEM
      else if io.recvFails then io.err
      else Validate(UdpPacket(io, size), wanted, igntc)
    }

    // udp_recv: the packet is in the input buffer and has been checked, or there is an error.
    method UdpRecv(io: Io) returns (e: Errno)
      requires Valid() && state == UDP_RECV && GoodIo(io)
      modifies `fd, `open, `ibuf, `ibuflen, `rcode, `ancount, `viaTcp
      ensures fd == -1 && open == {} && !viaTcp && e == Received(io, |old(ibuf)|)
      ensures e == NoError || e == EOVERFLOW ==> ibuflen <= |ibuf| && ibuf[..ibuflen] == UdpPacket(io, |old(ibuf)|)
      ensures e == NoError || e == EOVERFLOW ==> ibuflen <= |ibuf| && Checked(e)
    {
      hide Validate, HeaderAt;
      viaTcp := false;
      var ok := EnsureIbuf(MAXPACKETSZ, io);
      if !ok {
        Close();
        return ENOMEM;
      }
      Close();
      if io.recvFails {
        return io.err;
      }
      var d := io.data[..Min(|io.data|, |ibuf|)];
      Store(0, d);
      ibuflen := |d|;
      assert ibuf[..ibuflen] == d;
      e := CheckInput();
    }

    ghost predicate Checked(e: Errno)
      reads `ibuf, `ibuflen, `rcode, `ancount
    {
      && ibuflen <= |ibuf| && Validate(ibuf[..ibuflen], wanted, igntc) == e
      && ibuflen >= HFIXEDSZ && rcode == HeaderAt(ibuf[..ibuflen]).flags % 16 && ancount == HeaderAt(ibuf[..ibuflen]).ancount
    }

    method CheckInput() returns (e: Errno)
      requires 0 in wanted.dname && ibuflen <= |ibuf|
      modifies `rcode, `ancount
      ensures e == Validate(ibuf[..ibuflen], wanted, igntc)
      ensures e == NoError || e == EOVERFLOW ==> Checked(e)
    {
      hide HeaderAt;
      var noted, rc, an;
      e, noted, rc, an := ValidatePacket(ibuf[..ibuflen], wanted, igntc);
      if noted {
        rcode, ancount := rc, an;
      }
      assert e == NoError || e == EOVERFLOW ==> noted;
    }

    // tcp_write: -1 on failure, 0 when all has been sent, 1 to try again.
    method TcpWrite(io: Io) returns (r: int)
      requires Valid() && state == TCP_WRITE && GoodIo(io)
      modifies `fd, `open, `datalen, `sent, `got
      ensures r in {-1, 0, 1} && fd >= -1 && open == (if fd == -1 then {} else {fd})
      ensures r == -1 <==> fd == -1
      ensures r == -1 <==> if old(fd) == -1 then io.sock == -1 else io.sendFails
      ensures r == 0 ==> datalen == 0 && old(fd) != -1 && sent == Framed(obuf) && got == []
      ensures r == 1 ==> datalen < |obuf| + 2 && sent == Framed(obuf)[..datalen] && (old(fd) != -1 ==> fd == old(fd) && old(datalen) < datalen)
      ensures r == 1 && old(fd) == -1 ==> sent == []
      ensures r != -1 && old(fd) != -1 ==>
                var n := old(datalen) + Max(1, Min(io.sent, |obuf| + 2 - old(datalen)));
                n <= |obuf| + 2 && sent == Framed(obuf)[..n] && (r == 0 <==> n == |obuf| + 2)
    {
      if fd == -1 {
        fd := Connect(io);
        if fd == -1 { return -1; }
        datalen := 0;
        sent := [];
        return 1;
      }
      var iov: seq<byte>;
      if datalen < 2 {
        iov := Net16(|obuf| % 0x1_0000)[datalen..] + obuf;
      } else {
        iov := obuf[datalen - 2..];
      }
      assert iov == Framed(obuf)[datalen..];
      if io.sendFails {
        Close();
        return -1;
      }
      r := Sent(Max(1, Min(io.sent, |iov|)));
    }

    // n more bytes of the query have gone out.
    method Sent(n: nat) returns (r: int)
      requires datalen + n <= |obuf| + 2 && sent == Framed(obuf)[..datalen]
      modifies `datalen, `sent, `got
      ensures sent == Framed(obuf)[..old(datalen) + n]
      ensures if old(datalen) + n == |obuf| + 2 then r == 0 && datalen == 0 && got == [] else r == 1 && datalen == old(datalen) + n && got == old(got)
    {
      hide Framed;
      sent := Framed(obuf)[..datalen + n];
      datalen := datalen + n;
      if datalen == |obuf| + 2 {
        datalen := 0;
        got := [];
        return 0;
      }
      r := 1;
    }

    // tcp_read: an error, NoError with a checked packet, or more to read.
    method TcpRead(io: Io) returns (e: Errno, again: bool)
      requires Valid() && state == TCP_READ && GoodIo(io)
      modifies `fd, `open, `datalen, `pktlen, `ibuf, `ibuflen, `rcode, `ancount, `got
      ensures |pktlen| == 2
      ensures again ==> fd == old(fd) && open == {fd} && Reading() && BytesLeft(datalen, ibuflen) < BytesLeft(old(datalen), old(ibuflen))
      ensures !again ==> fd == -1 && open == {} && (e == NoError ==> ibuflen <= |ibuf| && Checked(e) && got == Framed(ibuf[..ibuflen]))
      ensures match HeardTcp(old(got), |old(ibuf)|, io)
              case Failed(e') => !again && e == e' != NoError
              case More(g) => again && got == g
              case Whole(p) => !again && e == Validate(p, wanted, igntc) && ibuflen <= |ibuf| && ibuf[..ibuflen] == p
    {
      hide Validate, HeaderAt, Net16, Checked;
      if datalen < 2 {
        var more;
        e, again, more := ReadLength(io);
        if !more { return; }
      }
      e, again := ReadRest(io);
    }

    // The second half of tcp_read: the packet itself.
    method ReadRest(io: Io) returns (e: Errno, again: bool)
      requires GoodIo(io) && fd >= 0 && open == {fd} && 0 in wanted.dname
      requires 2 <= datalen <= ibuflen + 2 && ibuflen < 0x1_0000 && ibuflen <= |ibuf| && got == Net16(ibuflen) + ibuf[..datalen - 2]
      modifies `fd, `open, `datalen, `ibuf, `rcode, `ancount, `got
      ensures again ==> fd == old(fd) && open == {fd} && old(datalen) < datalen < ibuflen + 2
                        && ibuflen <= |ibuf| && got == Net16(ibuflen) + ibuf[..datalen - 2]
      ensures !again ==> fd == -1 && open == {} && (e == NoError ==> ibuflen <= |ibuf| && Checked(e) && got == Framed(ibuf[..ibuflen]))
      ensures match HeardRest(old(got), io)
              case Failed(e') => !again && e == e' != NoError
              case More(g) => again && got == g
              case Whole(p) => !again && e == Validate(p, wanted, igntc) && ibuflen <= |ibuf| && ibuf[..ibuflen] == p
    {
      hide Validate, HeaderAt, Net16, Checked, HeardRest, Framed;
      var offset := datalen - 2;
      RestIs(got, ibuf[..offset], ibuflen, io);
      if io.moreFails {
        Close();
        return io.err, false;
      }
      var d := io.more[..Min(|io.more|, ibuflen - offset)];
      if d == [] {
        Close();
        return ECONNRESET, false;
      }
      Take(d);
      if datalen != ibuflen + 2 {
        return NoError, true;
      }
      FramedIs(ibuf[..ibuflen]);
      e := CheckInput();
      again := false;
      Close();
    }

    // A piece of the packet behind what is already there.
    method Take(d: seq<byte>)
      requires 2 <= datalen <= ibuflen + 2 - |d| && ibuflen < 0x1_0000 && ibuflen <= |ibuf| && got == Net16(ibuflen) + ibuf[..datalen - 2]
      modifies `datalen, `ibuf, `got
      ensures datalen == old(datalen) + |d| && |ibuf| == |old(ibuf)| && got == Net16(ibuflen) + ibuf[..datalen - 2] && got == old(got) + d
      ensures ibuf[..datalen - 2] == old(ibuf)[..old(datalen) - 2] + d
    {
      hide Net16;
      var offset := datalen - 2;
      ghost var before := ibuf;
      Store(offset, d);
      assert ibuf[..offset + |d|] == before[..offset] + d;
      Assoc(Net16(ibuflen), before[..offset], d);
      got := got + d;
      datalen := datalen + |d|;
    }

    // The first half of tcp_read: the two length bytes.
    method ReadLength(io: Io) returns (e: Errno, again: bool, more: bool)
      requires Valid() && state == TCP_READ && GoodIo(io) && datalen < 2
      modifies `fd, `open, `datalen, `pktlen, `ibuf, `ibuflen, `got
      ensures |pktlen| == 2 && datalen <= 2
      ensures more ==> datalen == 2 && ibuflen < 0x1_0000 && ibuflen <= |ibuf| && got == Net16(ibuflen) + ibuf[..0] && fd == old(fd) && open == {fd}
      ensures !more && again ==> fd == old(fd) && open == {fd} && Reading() && BytesLeft(datalen, ibuflen) < BytesLeft(old(datalen), old(ibuflen))
      ensures !more && !again ==> fd == -1 && open == {} && e != NoError
      ensures more ==> HeardTcp(old(got), |old(ibuf)|, io) == HeardRest(got, io)
      ensures !more && again ==> HeardTcp(old(got), |old(ibuf)|, io) == More(got)
      ensures !more && !again ==> HeardTcp(old(got), |old(ibuf)|, io) == Failed(e)
    {
      e, again, more := NoError, false, false;
      if io.recvFails {
        Close();
        return io.err, false, false;
      }
      var d := io.data[..Min(|io.data|, 2 - datalen)];
      if d == [] {
        Close();
        return ECONNRESET, false, false;
      }
      pktlen := pktlen[..datalen] + d + pktlen[datalen + |d|..];
      got := got + d;
      datalen := datalen + |d|;
      assert got == pktlen[..datalen];
      if datalen < 2 {
        return NoError, true, false;
      }
      ibuflen := Num16(pktlen);
      assert got == Net16(ibuflen) by { NumBack(pktlen); }
      var ok := EnsureIbuf(ibuflen, io);
      if !ok {
        Close();
        return ENOMEM, false, false;
      }
      if io.pollFails {
        Close();
        return io.err, false, false;
      }
      if !io.pollReady {
        return NoError, true, false;
      }
      more := true;
    }

    /*** res_send_async_run ***/

    // The cases of the switch. Each moves on: the measure goes down.
    method NextNs()
      requires Valid() && state == NEXT_NS
      modifies this
      ensures Valid() && Less(Measure(), old(Measure())) && old(turns) <= turns
      ensures state == if |old(turns)| == nscount * nsretries then HALT else if useVc || |obuf| > PACKETSZ then TCP_WRITE else UDP_SEND
      ensures if state == HALT then errno == ETIMEDOUT else nscount > 0 && timeout == TimeoutOf(|old(turns)|)
      ensures |turns| == |old(turns)| + if state == HALT then 0 else 1
    {
      hide Delivered, Exchanged, Reading;
      var ok := IterNs();
      if !ok {
        errno := ETIMEDOUT;
        state := HALT;
      } else if useVc || |obuf| > PACKETSZ {
        state := TCP_WRITE;
      } else {
        state := UDP_SEND;
      }
    }

    method Ask(io: Io) returns (wait: Option<Wait>)
      requires Valid() && state == UDP_SEND && GoodIo(io)
      modifies this
      ensures Valid() && Less(Measure(), old(Measure())) && turns == old(turns)
      ensures state == if io.sock == -1 || io.sendFails then NEXT_NS else UDP_RECV
      ensures wait == if state == UDP_RECV then Some(WANT_READ) else None
    {
      hide Validate, HeaderAt, ClearAd, Turns, Framed, Ended, Delivered, Exchanged, Reading;
      wait := None;
      var ok := UdpSend(io);
      if !ok {
        state := NEXT_NS;
      } else {
        state := UDP_RECV;
        wait := Some(WANT_READ);
      }
    }

    method Hear(io: Io)
      requires Valid() && state == UDP_RECV && GoodIo(io)
      modifies this
      ensures Valid() && Less(Measure(), old(Measure())) && turns == old(turns) && state != UDP_RECV
      ensures var e := Received(io, |old(ibuf)|);
              state == (if e == NoError || (e == EOVERFLOW && igntc) then PACKET
                        else if e == EOVERFLOW then TCP_WRITE
                        else if e == ENOMEM then HALT else NEXT_NS)
      ensures AfterUdp(old(Now()), io, Now())
    {
      hide Validate, HeaderAt, ClearAd, Turns, Framed, Received;
      var e := UdpRecv(io);
      if e == NoError {
        state := PACKET;
      } else if e == ENOMEM {
        errno := e;
        state := HALT;
      } else if e != EOVERFLOW {
        state := NEXT_NS;
      } else if igntc {
        state := PACKET;
      } else {
        state := TCP_WRITE;
      }
    }

    method Write(io: Io) returns (wait: Option<Wait>)
      requires Valid() && state == TCP_WRITE && GoodIo(io)
      modifies this
      ensures Valid() && Less(Measure(), old(Measure())) && turns == old(turns)
      ensures wait == if fd == -1 then None else Some(if state == TCP_WRITE then WANT_WRITE else WANT_READ)
      ensures wait.Some? ==> state in {TCP_WRITE, TCP_READ}
      ensures state == NEXT_NS <==> if old(fd) == -1 then io.sock == -1 else io.sendFails
      ensures state == TCP_READ <==> old(fd) != -1 && !io.sendFails && sent == Framed(obuf)
      ensures AfterWrite(old(Now()), io, Now())
    {
      hide Validate, HeaderAt, ClearAd, Turns, Framed, Ended, Delivered, Exchanged;
      wait := None;
      var r := TcpWrite(io);
      if r == -1 {
        state := NEXT_NS;
      } else if r == 0 {
        state := TCP_READ;
        wait := Some(WANT_READ);
      } else {
        wait := Some(WANT_WRITE);
      }
    }

    method Read(io: Io) returns (wait: Option<Wait>)
      requires Valid() && state == TCP_READ && GoodIo(io)
      modifies this
      ensures Valid() && Less(Measure(), old(Measure())) && turns == old(turns)
      ensures wait == if fd == -1 then None else Some(WANT_READ)
      ensures wait.Some? ==> state == TCP_READ
      ensures state in {TCP_READ, PACKET, HALT, NEXT_NS} && (state == HALT ==> errno == ENOMEM)
      ensures state == PACKET ==> ibuflen <= |ibuf| && Validate(ibuf[..ibuflen], wanted, igntc) == NoError
      ensures AfterRead(old(Now()), io, Now())
    {
      hide Validate, HeaderAt, ClearAd, Turns, Framed, Reading, HeardTcp, Delivered;
      ghost var h := HeardTcp(got, |ibuf|, io);
      viaTcp := true;
      var e, again := TcpRead(io);
      wait := Conclude(e, again);
      assert AfterHeard(h, Now());
    }

    // What follows from the outcome of tcp_read.
    method Conclude(e: Errno, again: bool) returns (wait: Option<Wait>)
      requires state == TCP_READ && 0 in wanted.dname && |pktlen| == 2 && Turns() && nscount > 0 && 1 <= nsidx && viaTcp && sent == Framed(obuf)
      requires again ==> fd >= 0 && open == {fd} && Reading()
      requires !again ==> fd == -1 && open == {} && (e == NoError ==> ibuflen <= |ibuf| && Checked(e) && got == Framed(ibuf[..ibuflen]))
      modifies `state, `errno
      ensures Valid() && wait == if again then Some(WANT_READ) else None
      ensures state == if again then TCP_READ else if e == NoError then PACKET else if e == ENOMEM then HALT else NEXT_NS
      ensures state == HALT ==> errno == ENOMEM
    {
      hide Validate, HeaderAt, ClearAd, Turns, Framed, Reading;
      wait := None;
      if again {
        wait := Some(WANT_READ);
      } else if e == NoError {
        state := PACKET;
      } else if e == ENOMEM {
        errno := e;
        state := HALT;
      } else {
        state := NEXT_NS;
      }
    }

    method Packet()
      requires Valid() && state == PACKET
      modifies this
      ensures Valid() && Less(Measure(), old(Measure())) && turns == old(turns) && state == HALT && errno == NoError
      ensures old(ibuflen) <= |old(ibuf)| && HFIXEDSZ <= old(ibuflen) && nscount > 0 && ns == (|turns| - 1) % nscount + 1
      ensures data == Some(if trustAd then old(ibuf)[..old(ibuflen)] else ClearAd(old(ibuf)[..old(ibuflen)]))
    {
      hide Validate, HeaderAt, ClearAd, Exchanged, Reading, Cyclic;
      LastTurn();
      ns := nsidx;
      errno := NoError;
      data := Some(if trustAd then ibuf[..ibuflen] else ClearAd(ibuf[..ibuflen]));
      state := HALT;
    }

    lemma LastTurn()
      requires Turns() && nsidx > 0
      ensures turns != [] && turns[|turns| - 1] == nsidx && nscount > 0 && nsidx == (|turns| - 1) % nscount + 1
    {
      ModUnique(|turns| - 1, nscount, nsloop, nsidx - 1);
    }

    // One pass through the switch; done and wait say whether the function returns.
    method Step(io: Io) returns (done: bool, wait: Option<Wait>)
      requires Valid() && GoodIo(io)
      modifies this
      ensures Valid() && done == (old(state) == HALT)
      ensures Follows(old(Now()), io, Now())
      ensures !done ==> Less(Measure(), old(Measure())) && old(turns) <= turns
      ensures done ==> state == HALT && Closed() && turns == old(turns) && errno == old(errno)
      ensures wait.Some? ==> fd != -1 && state in {UDP_RECV, TCP_WRITE, TCP_READ} && wait.value == if state == TCP_WRITE then WANT_WRITE else WANT_READ
    {
      hide Validate, HeaderAt, ClearAd, Delivered, Turns, Exchanged, Reading, AfterUdp, AfterWrite, AfterRead;
      done, wait := false, None;
      match state
      case INIT => Begin();
      case NEXT_NS => NextNs();
      case UDP_SEND => wait := Ask(io);
      case UDP_RECV => Hear(io);
      case TCP_WRITE => wait := Write(io);
      case TCP_READ => wait := Read(io);
      case PACKET => Packet();
      case HALT =>
        Finish();
        done := true;
    }

    method Begin()
      requires Valid() && state == INIT
      modifies `state, `errno
      ensures Valid() && Less(Measure(), old(Measure()))
      ensures if nscount == 0 then state == HALT && errno == ECONNREFUSED else state == NEXT_NS
    {
      hide Turns;
      if nscount == 0 {
        errno := ECONNREFUSED;
        state := HALT;
      } else {
        state := NEXT_NS;
      }
    }

    method Finish()
      requires Valid() && state == HALT
      modifies `hErrno, `data
      ensures Valid() && Closed() && data == if errno == NoError then old(data) else None
    {
      hide Validate, HeaderAt, ClearAd, Delivered, Turns, Exchanged, Reading;
      if errno != NoError {
        hErrno := TRY_AGAIN;
        data := None;
      } else {
        hErrno := Verdict(rcode, ancount);
      }
    }

    // The views before and after each step, from the start of the query.
    ghost predicate IsTrace(env: nat -> Io, trace: seq<View>) {
      |trace| > 0 && trace[0].state == INIT && trace[0].turns == 0 && forall k :: 0 <= k < |trace| - 1 ==> Follows(trace[k], env(k), trace[k + 1])
    }

    // res_send_async_run: steps until it has to wait or is done. env(k) is what system calls
    // return in the k-th step of the query's life.
    method Run(env: nat -> Io, k0: nat, ghost before: seq<View>) returns (done: bool, wait: Option<Wait>, k: nat, ghost trace: seq<View>)
      requires Valid() && GoodEnv(env) && |before| == k0 + 1 && IsTrace(env, before) && before[k0] == Now()
      modifies this
      ensures Valid() && k0 < k && done != wait.Some? && old(turns) <= turns
      ensures before <= trace && |trace| == k + 1 && IsTrace(env, trace) && trace[k] == Now()
      ensures done ==> state == HALT && Closed()
      ensures !done ==> fd != -1 && Less(Measure(), old(Measure()))
    {
      hide Valid, Measure, Closed, Follows, Now;
      k, trace := k0, before;
      while true
        invariant Valid() && k0 <= k && old(turns) <= turns && (k == k0 || Less(Measure(), old(Measure())))
        invariant k == k0 ==> Measure() == old(Measure())
        invariant before <= trace && |trace| == k + 1 && IsTrace(env, trace) && trace[k] == Now()
        decreases Measure().0, Measure().1, Measure().2
      {
        ghost var m := Measure();
        done, wait := Step(env(k));
        k := k + 1;
        trace := trace + [Now()];
        if done { return true, None, k, trace; }
        if m != old(Measure()) { LessTrans(Measure(), m, old(Measure())); }
        if wait.Some? { return false, wait, k, trace; }
      }
    }

    // A step that receives a packet to hand out.
    ghost predicate Accepts(s: View, io: Io, p: seq<byte>) {
      || (&& s.state == UDP_RECV && (s.size < 4096 ==> !io.allocFails) && !io.recvFails && p == io.data[..Min(|io.data|, Max(s.size, 4096))]
          && (Validate(p, wanted, igntc) == NoError || (igntc && Validate(p, wanted, igntc) == EOVERFLOW)))
      || (s.state == TCP_READ && HeardTcp(s.got, s.size, io) == Whole(p) && Validate(p, wanted, igntc) == NoError)
    }

    // That packet has been handed out, without its AD bit unless that is trusted, as the answer
    // of the nameserver in turn.
    ghost predicate AcceptedLast(s: View, p: seq<byte>, last: View) {
      && last.errno == NoError && nscount > 0 && |p| >= 12
      && last.data == Some(if trustAd then p else ClearAd(p)) && last.ns == (s.turns - 1) % nscount + 1
    }

    // A whole query: the caller runs it, waits for the descriptor or a timeout, and runs it
    // again. It always ends, with all sockets closed. It succeeds exactly if some step receives
    // a packet that is accepted, and hands out that packet. Otherwise it gives up after every
    // nameserver had all its turns, or as soon as memory runs out.
    method Resolve(env: nat -> Io) returns (ghost trace: seq<View>)
      requires Valid() && state == INIT && GoodEnv(env)
      modifies this
      ensures Valid() && state == HALT && Closed() && Ended()
      ensures Cyclic(turns, nscount) && |turns| <= nscount * nsretries
      ensures IsTrace(env, trace) && trace[|trace| - 1] == Now()
      ensures errno == NoError <==> exists k, p :: 0 <= k < |trace| - 1 && Accepts(trace[k], env(k), p)
      ensures forall k, p :: 0 <= k < |trace| - 1 && Accepts(trace[k], env(k), p) ==> AcceptedLast(trace[k], p, Now())
      ensures errno == ECONNREFUSED <==> nscount == 0
      ensures errno == ETIMEDOUT ==> forall i :: 1 <= i <= nscount ==> multiset(turns)[i] == nsretries
      ensures errno == NoError ==> data.Some? && |data.value| >= 12 && Answered(hErrno, data.value)
    {
      hide Measure, ClearAd, Follows, Accepts, AcceptedLast, IsTrace, Answered, Validate, HeaderAt, Verdict;
      trace := RunAll(env);
      Outcome(env, trace);
      ResultFacts();
    }

    method RunAll(env: nat -> Io) returns (ghost trace: seq<View>)
      requires Valid() && state == INIT && GoodEnv(env)
      modifies this
      ensures Valid() && state == HALT && Closed()
      ensures |trace| > 0 && IsTrace(env, trace) && trace[|trace| - 1] == Now()
    {
      hide Measure, Follows, Delivered, ClearAd, Closed, IsTrace;
      var k := 0;
      var done, wait := false, None;
      trace := [Now()];
      StartTrace(env, trace);
      while !done
        invariant Valid() && (done ==> state == HALT && Closed())
        invariant |trace| == k + 1 && IsTrace(env, trace) && trace[k] == Now()
        decreases !done, Measure().0, Measure().1, Measure().2
      {
        done, wait, k, trace := Run(env, k, trace);
      }
    }

    lemma {:induction false} ResultFacts()
      requires Valid() && state == HALT && Closed()
      ensures Ended() && Cyclic(turns, nscount) && |turns| <= nscount * nsretries
      ensures errno == ECONNREFUSED <==> nscount == 0
      ensures errno == ETIMEDOUT ==> forall i :: 1 <= i <= nscount ==> multiset(turns)[i] == nsretries
      ensures errno == NoError ==> data.Some? && |data.value| >= 12 && Answered(hErrno, data.value)
    {
      hide ClearAd, Answered, Validate, HeaderAt, Verdict;
      if errno == ETIMEDOUT {
        forall i | 1 <= i <= nscount ensures multiset(turns)[i] == nsretries {
          EqualTurns(turns, nscount, nsretries, i);
        }
      }
      if errno == NoError {
        VerdictOfPacket(ibuf[..ibuflen], rcode, ancount, trustAd);
      }
    }

    lemma {:induction false} StartTrace(env: nat -> Io, trace: seq<View>)
      requires |trace| == 1 && trace[0].state == INIT && trace[0].turns == 0
      ensures IsTrace(env, trace)
    {
    }

    // How a trace that ends in HALT ends.
    lemma {:induction false} Outcome(env: nat -> Io, trace: seq<View>)
      requires GoodEnv(env) && IsTrace(env, trace) && trace[|trace| - 1].state == HALT
      ensures var last := trace[|trace| - 1];
              && (last.errno == NoError <==> exists k, p :: 0 <= k < |trace| - 1 && Accepts(trace[k], env(k), p))
              && forall k, p :: 0 <= k < |trace| - 1 && Accepts(trace[k], env(k), p) ==> AcceptedLast(trace[k], p, last)
    {
      hide Follows, Accepts, ClearAd, HeardTcp;
      forall k, p | 0 <= k < |trace| - 1 && Accepts(trace[k], env(k), p)
        ensures AcceptedLast(trace[k], p, trace[|trace| - 1])
      {
        AcceptLeads(env, trace, k, p);
      }
      if trace[|trace| - 1].errno == NoError {
        var k, p := SomeAccept(env, trace, |trace| - 1);
      }
    }

    lemma {:induction false} AcceptLeads(env: nat -> Io, trace: seq<View>, k: nat, p: seq<byte>)
      requires IsTrace(env, trace) && trace[|trace| - 1].state == HALT && k < |trace| - 1 && Accepts(trace[k], env(k), p)
      ensures AcceptedLast(trace[k], p, trace[|trace| - 1])
    {
      hide ClearAd, HeardTcp, Validate;
      assert Follows(trace[k], env(k), trace[k + 1]);
      assert trace[k + 1].state == PACKET && trace[k + 1].packet == p && trace[k + 1].turns == trace[k].turns;
      assert Follows(trace[k + 1], env(k + 1), trace[k + 2]);
      HaltStays(env, trace, k + 2, |trace| - 1);
    }

    // A truncated UDP answer to the question asked is asked for again over TCP, in the same
    // turn, unless truncation is to be ignored.
    lemma {:induction false} TruncatedGoesToTcp(env: nat -> Io, trace: seq<View>, k: nat, b: nat)
      requires IsTrace(env, trace) && k < |trace| - 1 && trace[k].state == UDP_RECV && !igntc
      requires (trace[k].size < 4096 ==> !env(k).allocFails) && !env(k).recvFails
      requires var p := env(k).data[..Min(|env(k).data|, Max(trace[k].size, 4096))]; AnswerHeader(p, wanted) && Truncated(p) && AskedTo(p, b, wanted)
      ensures trace[k + 1].state == TCP_WRITE && trace[k + 1].turns == trace[k].turns
    {
      hide Validate, AnswerHeader, Truncated, AskedTo;
      assert Follows(trace[k], env(k), trace[k + 1]);
      TruncatedIsTold(UdpPacket(env(k), trace[k].size), b, wanted);
    }

    // A step that fails to send or to hear leads on to the next nameserver, round after round;
    // the query gives up exactly when all have had their turns.
    lemma {:induction false} FailureGoesOn(env: nat -> Io, trace: seq<View>, k: nat)
      requires IsTrace(env, trace) && k < |trace| - 2
      requires || (trace[k].state == UDP_SEND && (env(k).sock == -1 || env(k).sendFails))
               || (trace[k].state == TCP_WRITE && if trace[k].open then env(k).sendFails else env(k).sock == -1)
               || (trace[k].state == UDP_RECV && env(k).recvFails && (trace[k].size < 4096 ==> !env(k).allocFails)
                   && env(k).err != NoError && env(k).err != EOVERFLOW && env(k).err != ENOMEM)
      ensures if trace[k].turns == nscount * nsretries then trace[k + 2].state == HALT && trace[k + 2].errno == ETIMEDOUT
              else trace[k + 2].turns == trace[k].turns + 1 && trace[k + 2].state == if useVc || |obuf| > 512 then TCP_WRITE else UDP_SEND
    {
      hide Validate, AfterRead, ClearAd;
      assert Follows(trace[k], env(k), trace[k + 1]);
      assert trace[k + 1].state == NEXT_NS && trace[k + 1].turns == trace[k].turns;
      assert Follows(trace[k + 1], env(k + 1), trace[k + 2]);
    }

    lemma {:induction false} HaltStays(env: nat -> Io, trace: seq<View>, i: nat, j: nat)
      requires IsTrace(env, trace) && i <= j < |trace| && trace[i].state == HALT
      ensures trace[j].state == HALT && trace[j].errno == trace[i].errno && trace[j].ns == trace[i].ns
      ensures trace[i].errno == NoError ==> trace[j].data == trace[i].data
      decreases j
    {
      hide AfterUdp, AfterWrite, AfterRead, ClearAd;
      if i < j {
        HaltStays(env, trace, i, j - 1);
        assert Follows(trace[j - 1], env(j - 1), trace[j]);
      }
    }

    // Only an accepted packet leads to success.
    lemma {:induction false} SomeAccept(env: nat -> Io, trace: seq<View>, j: nat) returns (k: nat, p: seq<byte>)
      requires GoodEnv(env) && IsTrace(env, trace) && 0 < j < |trace| && trace[j].state == HALT && trace[j].errno == NoError
      ensures k < j && Accepts(trace[k], env(k), p)
      decreases j
    {
      hide ClearAd, HeardTcp, Validate;
      assert Follows(trace[j - 1], env(j - 1), trace[j]);
      if trace[j - 1].state == HALT {
        k, p := SomeAccept(env, trace, j - 1);
      } else {
        assert trace[j - 1].state == PACKET;
        k, p := j - 2, trace[j - 1].packet;
        assert GoodIo(env(k)) && Follows(trace[k], env(k), trace[j - 1]);
      }
    }

    ghost predicate Closed()
      reads this
    {
      fd == -1 && open == {} && hErrno == (if errno != NoError then TRY_AGAIN else Verdict(rcode, ancount))
    }
  }

  // The verdict on an answer, by its count of answers and the lowest four bits of its flags.
  ghost predicate Answered(h: HErrno, p: seq<byte>)
    requires |p| >= 12
  {
    h == if p[6] != 0 || p[7] != 0 then NETDB_SUCCESS
         else match p[3] % 16
         case 0 => NO_DATA
         case 2 => TRY_AGAIN
         case 3 => HOST_NOT_FOUND
         case _ => NO_RECOVERY
  }

  // Clearing the AD bit changes the fourth byte by 32 if the bit is set, and nothing else.
  lemma {:induction false} ClearAdMeaning(p: seq<byte>)
    requires |p| >= 12
    ensures ClearAd(p) == p[3 := if p[3] / 32 % 2 == 1 then p[3] - 32 else p[3]]
  {
    hide Net16, Flag;
    ClearBit(p[2], p[3]);
    assert HeaderAt(p).flags == 256 * p[2] as int + p[3] as int;
  }

  lemma {:induction false} ClearBit(a: byte, b: byte)
    ensures var f := 256 * a as int + b as int;
            Net16(if Flag(f, AD_MASK) then f - AD_MASK else f) == [a, if b / 32 % 2 == 1 then b - 32 else b]
  {
    var f := 256 * a as int + b as int;
    ModUnique(f, 32, 8 * a as int + b as int / 32, b as int % 32);
  }

  lemma {:induction false} VerdictOfPacket(p: seq<byte>, rcode: nat, ancount: nat, trustAd: bool)
    requires |p| >= 12 && rcode == HeaderAt(p).flags % 16 && ancount == HeaderAt(p).ancount
    ensures Answered(Verdict(rcode, ancount), if trustAd then p else ClearAd(p))
  {
    hide ClearAd, HeaderAt;
    ClearAdMeaning(p);
    VerdictBytes(p);
  }

  lemma {:induction false} VerdictBytes(p: seq<byte>)
    requires |p| >= 12
    ensures HeaderAt(p).flags % 16 == p[3] as int % 16 && HeaderAt(p).ancount == 256 * p[6] as int + p[7] as int
  {
    assert p[2..4][0] == p[2] && p[2..4][1] == p[3] && p[6..8][0] == p[6] && p[6..8][1] == p[7];
    ModUnique(HeaderAt(p).flags, 16, 16 * p[2] as int + p[3] as int / 16, p[3] as int % 16);
  }

  lemma {:induction false} HalfShare(t: nat, n: nat)
    requires n > 0
    ensures 2 * t / n == 2 * (t / n) || 2 * t / n == 2 * (t / n) + 1
    ensures n == 1 ==> t / n == t
  {
    var q, r := t / n, t % n;
    MulAdd(n, 2 * q, 1);
    MulAssoc(2, n, q);
    MulAssoc(n, 2, q);
    if 2 * r < n {
      ModUnique(2 * t, n, 2 * q, 2 * r);
    } else {
      ModUnique(2 * t, n, 2 * q + 1, 2 * r - n);
    }
    if n == 1 {
      ModUnique(t, 1, t, 0);
    }
  }

  lemma {:induction false} LessTrans(a: (nat, nat, nat), b: (nat, nat, nat), c: (nat, nat, nat))
    requires Less(a, b) && Less(b, c)
    ensures Less(a, c)
  {
  }

  // A packet behind its length, as section 4.2.2 of RFC 1035 wants it; the length field
  // has 16 bits.
  function Framed(p: seq<byte>): (s: seq<byte>)
    ensures |s| == |p| + 2
  {
    Net16(|p| % 0x1_0000) + p
  }

  // The rest of a packet of n bytes, seen from what is there.
  lemma {:induction false} RestIs(got: seq<byte>, p: seq<byte>, n: nat, io: Io)
    requires n < 0x1_0000 && |p| <= n && got == Net16(n) + p
    ensures var d := io.more[..Min(|io.more|, n - |p|)];
            HeardRest(got, io) ==
              if io.moreFails then Failed(io.err)
              else if d == [] then Failed(ECONNRESET)
              else if |d| < n - |p| then More(got + d)
              else Whole(p + d)
  {
    hide Net16, Num16;
    NetBack(n);
    assert got[..2] == Net16(n);
    var d := io.more[..Min(|io.more|, n - |p|)];
    assert (got + d)[2..] == p + d;
  }

  lemma {:induction false} FramedIs(p: seq<byte>)
    requires |p| < 0x1_0000
    ensures Framed(p) == Net16(|p|) + p
  {
  }

  lemma {:induction false} NetBack(n: nat)
    requires n < 0x1_0000
    ensures Num16(Net16(n)) == n
  {
  }

  lemma {:induction false} NumBack(s: seq<byte>)
    requires |s| == 2
    ensures Net16(Num16(s)) == s
  {
    assert Num16(s) / 256 == s[0] && Num16(s) % 256 == s[1];
  }

  ghost function BytesLeft(datalen: nat, ibuflen: nat): int {
    if datalen < 2 then 0x1_0002 - datalen else ibuflen + 2 - datalen
  }

  // In n cyclic rounds of turns, every nameserver has n.
  lemma {:induction false} EqualTurns(turns: seq<nat>, n: nat, rounds: nat, i: nat)
    requires Cyclic(turns, n) && |turns| == n * rounds && 1 <= i <= n
    ensures multiset(turns)[i] == rounds
  {
    CountTurns(turns, n, |turns|, i);
    assert turns[..|turns|] == turns;
    ModUnique(|turns| + n - i, n, rounds, n - i);
  }

  lemma {:induction false} CountTurns(turns: seq<nat>, n: nat, k: nat, i: nat)
    requires Cyclic(turns, n) && k <= |turns| && 1 <= i <= n
    ensures multiset(turns[..k])[i] == (k + n - i) / n
    decreases k
  {
    if k == 0 {
      ModUnique(n - i, n, 0, n - i);
    } else {
      CountTurns(turns, n, k - 1, i);
      assert turns[..k] == turns[..k - 1] + [turns[k - 1]];
      assert turns[k - 1] == (k - 1) % n + 1;
      OneTurn(n, k - 1, i);
    }
  }

  // Turn j is one of i exactly if its remainder says so.
  lemma {:induction false} OneTurn(n: nat, j: nat, i: nat)
    requires 1 <= i <= n
    ensures (j + 1 + n - i) / n == (j + n - i) / n + if j % n + 1 == i then 1 else 0
  {
    var q, r := j / n, j % n;
    MulAdd(n, q, 1);
    if r >= i {
      ModUnique(j + n - i, n, q + 1, r - i);
      ModUnique(j + 1 + n - i, n, q + 1, r + 1 - i);
    } else if r + 1 == i {
      ModUnique(j + n - i, n, q, n - 1);
      ModUnique(j + 1 + n - i, n, q + 1, 0);
    } else {
      ModUnique(j + n - i, n, q, r + n - i);
      ModUnique(j + 1 + n - i, n, q, r + 1 + n - i);
    }
  }
}
