/** Two channel ends of openbsd-compat/imsg.c joined by a stream socket: every operation of
    the buffers is a step of the protocol of module ImsgWire, so that its end-to-end theorem
    holds for them. */
module ImsgChannel {
  import opened Common
  import opened ImsgWire
  import opened Imsg

  class Channel {
    const tx: Imsgbuf
    const rx: Imsgbuf

    // the bytes in the kernel with their descriptors, what was composed and what was returned
    ghost var wire: seq<Cell>
    ghost var composed: seq<Message>
    ghost var got: seq<Message>

    // the received bytes with their descriptors, and the sender's buffers
    ghost var cells: seq<Cell>
    ghost var own: set<Ibuf>

    ghost function Sys(): System
      reads this, tx.w, tx.w.bufs, rx, rx.rbuf
    {
      System(composed, tx.w.Cells(), wire, rx.Unread(), rx.fds, got)
    }

    ghost predicate Valid()
      reads this, tx, tx.w, tx.w.bufs, rx, rx.w, rx.w.bufs, rx.rbuf
    {
      && tx.Valid() && rx.Valid() && tx != rx && tx.w != rx.w && tx.rbuf != rx.rbuf
      && (forall b :: b in tx.w.bufs ==> b in own) && (forall b :: b in rx.w.bufs ==> b !in own)
      && Invariant(Sys(), cells)
    }

    constructor (txPid: nat, rxPid: nat)
      requires 0 < txPid < 0x1_0000_0000 && 0 < rxPid < 0x1_0000_0000
      ensures Valid() && composed == got == [] && wire == []
    {
      hide Invariant, QueueCells;
      tx := new Imsgbuf(txPid);
      rx := new Imsgbuf(rxPid);
      wire, composed, got, cells, own := [], [], [], [], {};
      new;
      assert Sys() == START;
      StartKeeps();
    }

    // A message to be sent: it joins those composed, unless it is too long.
    method Compose(typ: nat, id: nat, pid: nat, fd: int, data: seq<byte>, junk: nat) returns (ok: bool)
      requires Valid() && typ < 0x1_0000_0000 && id < 0x1_0000_0000 && pid < 0x1_0000_0000 && junk < 0x1_0000
      modifies this, tx.w
      ensures Valid() && got == old(got) && ok == (IMSG_HEADER_SIZE + |data| <= MAX_IMSGSIZE)
      ensures composed == old(composed) + if ok then [Message(typ, id, if pid == 0 then tx.pid else pid, fd, data)] else []
    {
      hide Invariant, MessageCells, QueueCells, ValidQueue;
      ghost var s := Sys();
      ok := tx.Compose(typ, id, pid, fd, data, junk);
      own := own + set b | b in tx.w.bufs;
      assert rx.Valid() && rx.Unread() == s.buf;
      if ok {
        ghost var m := Message(typ, id, tx.Sender(pid), fd, data);
        composed := composed + [m];
        cells := StepKeeps(s, ImsgWire.Compose(m), cells);
        assert Sys() == Apply(s, ImsgWire.Compose(m));
      } else {
        assert composed + [] == composed;
        assert Sys() == s;
      }
    }

    // The same for a payload that is already in a buffer.
    method ComposeIbuf(typ: nat, id: nat, pid: nat, buf: Ibuf) returns (ok: bool)
      requires Valid() && typ < 0x1_0000_0000 && id < 0x1_0000_0000 && pid < 0x1_0000_0000
      requires Sendable(buf) && buf.fd == -1 && buf !in tx.w.bufs && buf !in rx.w.bufs
      modifies this, tx.w
      ensures Valid() && got == old(got) && ok == (IMSG_HEADER_SIZE + |buf.Data()| <= MAX_IMSGSIZE)
      ensures composed == old(composed) + if ok then [Message(typ, id, if pid == 0 then tx.pid else pid, -1, buf.Data())] else []
    {
      hide Invariant, MessageCells, QueueCells, ValidQueue;
      ghost var s := Sys();
      ok := tx.ComposeIbuf(typ, id, pid, buf);
      own := own + set b | b in tx.w.bufs;
      assert rx.Valid() && rx.Unread() == s.buf;
      if ok {
        ghost var m := Message(typ, id, tx.Sender(pid), -1, buf.Data());
        composed := composed + [m];
        cells := StepKeeps(s, ImsgWire.Compose(m), cells);
        assert Sys() == Apply(s, ImsgWire.Compose(m));
      } else {
        assert composed + [] == composed;
        assert Sys() == s;
      }
    }

    // sendmsg takes up to accept bytes, or fails.
    method Send(accept: int) returns (r: int)
      requires Valid()
      modifies this, tx.w, tx.w.bufs, own
      ensures Valid() && composed == old(composed) && got == old(got)
    {
      hide Invariant, QueueCells, Fds, ValidQueue;
      ghost var s := Sys();
      ghost var sent;
      r, sent := tx.w.Write(accept, own);
      wire := wire + sent;
      if sent != [] {
        ghost var n := |sent|;
        assert s.unsent == sent + tx.w.Cells();
        assert s.unsent[..n] == sent && s.unsent[n..] == tx.w.Cells() && s.unsent[1..n] == sent[1..];
        cells := StepKeeps(s, ImsgWire.Send(n), cells);
        assert Sys() == Apply(s, ImsgWire.Send(n));
      } else {
        assert wire == s.wire && sent + tx.w.Cells() == tx.w.Cells();
        assert Sys() == s;
      }
    }

    // recvmsg returns the first n bytes in the kernel, and the descriptor that travels with
    // them if there is one.
    method Recv(ghost n: nat, data: seq<byte>, rights: seq<int>)
      requires Valid() && Allowed(Sys(), ImsgWire.Recv(n)) && data == CellBytes(wire[..n]) && rights == Fds(wire[..n])
      modifies this, rx, rx.rbuf
      ensures Valid() && composed == old(composed) && got == old(got) && wire == old(wire)[n..]
    {
      hide Invariant, QueueCells, Fds, ValidQueue;
      ghost var s := Sys();
      var closed := rx.Read(data, rights);
      assert rights == [] || (|rights| == 1 && rights == [rights[0]]);
      assert rx.fds == s.fds + rights;
      wire := wire[n..];
      cells := StepKeeps(s, ImsgWire.Recv(n), cells);
      assert Sys() == Apply(s, ImsgWire.Recv(n));
    }

    // imsg_get returns the next of the messages composed, or asks for more; never an error.
    method Next() returns (r: int, m: Message)
      requires Valid()
      modifies this, rx, rx.rbuf
      ensures Valid() && composed == old(composed) && r >= 0 && got <= composed
      ensures r == 0 ==> got == old(got)
      ensures r > 0 ==> got == old(got) + [m]
      ensures r == 0 && wire == [] && tx.w.bufs == [] ==> got == composed
    {
      hide Invariant, QueueCells, Get, ValidQueue;
      ghost var s := Sys();
      Owed(s, cells);
      GotPrefix(s, cells);
      r, m := rx.GetMessage();
      match Get(s.buf, s.fds)
      case Incomplete =>
        assert Sys() == s;
        EmptyQueue();
      case BadLength =>
      case Got(msg, rest, fds') =>
        got := got + [m];
        cells := StepKeeps(s, ImsgWire.TakeOne, cells);
        assert Sys() == Apply(s, ImsgWire.TakeOne);
        GotPrefix(Sys(), cells);
    }
  }

  lemma {:induction false} StartKeeps()
    ensures Invariant(START, [])
  {
    assert AllCells([]) == [] + ([] + []);
  }

  lemma {:induction false} GotPrefix(s: System, cells: seq<Cell>)
    requires Invariant(s, cells)
    ensures s.got <= s.composed
  {
  }
}
