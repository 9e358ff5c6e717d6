/** The buffers of usr.sbin/smtpd/iobuf.c: a linear input buffer that is read line by line,
    and an output queue of linked segments. What read and writev do on a call is a
    parameter; allocation does not fail. */
module Iobuf {
  import opened Common

  const IOBUFQ_MIN: nat := 4096
  const IOV_MAX: nat := 1024
  const NEWLINE: byte := 10

  /*** The output queue ***/

  // struct ioqbuf; size is the length of buf.
  class Segment {
    var buf: seq<byte>
    var rpos: nat
    var wpos: nat
    var next: Segment?

    ghost predicate Holds(piece: seq<byte>)
      reads `buf, `rpos, `wpos
    {
      rpos < wpos <= |buf| && buf[rpos..wpos] == piece
    }

    constructor (len: nat)
      ensures rpos == wpos == 0 && next == null && |buf| == len
    {
      buf := seq(len, i => 0);
      rpos, wpos, next := 0, 0, null;
    }
  }

  // The segments hold these pieces, none of them empty.
  ghost predicate Hold(segs: seq<Segment>, pieces: seq<seq<byte>>)
    reads segs`buf, segs`rpos, segs`wpos
  {
    |pieces| == |segs| && forall i :: 0 <= i < |segs| ==> segs[i].Holds(pieces[i])
  }

  // The segments are linked in order, the last one to end.
  ghost predicate Links(segs: seq<Segment>, end: Segment?)
    reads segs`next
  {
    && (forall i, j :: 0 <= i && i + 1 == j < |segs| ==> segs[i].next == segs[j])
    && (segs != [] ==> segs[|segs| - 1].next == end)
  }

  ghost predicate Distinct(segs: seq<Segment>) {
    forall i, j :: 0 <= i < j < |segs| ==> segs[i] != segs[j]
  }

  class Iobuf {
    var outq: Segment?
    var outqlast: Segment?
    var queued: nat

    // the chain, and the bytes in it
    ghost var segs: seq<Segment>
    ghost var pieces: seq<seq<byte>>

    // all bytes ever queued, and those written
    ghost var enqueued: seq<byte>
    ghost var written: seq<byte>

    ghost predicate Linked()
      reads this, segs
    {
      && Hold(segs, pieces) && Links(segs, null) && Distinct(segs)
      && outq == (if segs == [] then null else segs[0])
      && outqlast == (if segs == [] then null else segs[|segs| - 1])
      && queued == |Flatten(pieces)|
    }

    // Nothing is lost or reordered between the caller and writev.
    ghost predicate Valid()
      reads this, segs
    {
      Linked() && enqueued == written + Flatten(pieces)
    }

    constructor ()
      ensures Valid() && enqueued == written == [] && segs == []
    {
      outq, outqlast, queued := null, null, 0;
      segs, pieces, enqueued, written := [], [], [], [];
    }

    // iobuf_reserve: room for len bytes behind all others, with whatever bytes are there.
    method Reserve(len: nat) returns (q: Segment?, at: nat)
      requires Linked()
      modifies this, segs
      ensures Linked() && (len == 0 <==> q == null) && enqueued == old(enqueued) && written == old(written)
      ensures q == null ==> segs == old(segs) && pieces == old(pieces)
      ensures q != null ==>
                && segs != [] && q == segs[|segs| - 1] && at >= q.rpos && q.wpos == at + len <= |q.buf|
                && Flatten(pieces) == old(Flatten(pieces)) + q.buf[at..at + len]
                && old(segs) <= segs && (segs == old(segs) || (segs == old(segs) + [q] && fresh(q)))
    {
      hide Hold, Links, Distinct;
      if len == 0 { return null, 0; }
      if outqlast == null || |outqlast.buf| - outqlast.wpos <= len {
        q := ReserveNew(len);
        at := 0;
      } else {
        q, at := ReserveLast(len);
      }
    }

    method ReserveNew(len: nat) returns (q: Segment)
      requires Linked() && len > 0
      modifies this, segs`next
      ensures Linked() && segs == old(segs) + [q] && q.wpos == len <= |q.buf| && q.rpos == 0 && fresh(q)
      ensures Flatten(pieces) == old(Flatten(pieces)) + q.buf[..len]
      ensures enqueued == old(enqueued) && written == old(written)
    {
      hide Flatten, Hold, Links, Distinct;
      q := Alloc(len);
      q.wpos := len;
      ghost var piece := q.buf[..len];
      assert q.Holds(piece);
      FlattenConcat(pieces, [piece]);
      FlattenOne(piece);
      Snoc(segs, pieces, q, piece);
      segs := segs + [q];
      pieces := pieces + [piece];
      queued := queued + len;
    }

    method ReserveLast(len: nat) returns (q: Segment, at: nat)
      requires Linked() && len > 0 && segs != [] && |segs[|segs| - 1].buf| - segs[|segs| - 1].wpos > len
      modifies `pieces, `queued, segs`wpos
      ensures Linked() && q == segs[|segs| - 1] && at >= q.rpos && q.wpos == at + len <= |q.buf|
      ensures Flatten(pieces) == old(Flatten(pieces)) + q.buf[at..at + len]
    {
      hide Flatten, Links, Hold, Distinct;
      q := outqlast;
      at := q.wpos;
      ghost var k := |segs| - 1;
      Front(segs, pieces);
      assert |pieces| == |segs| by { SameLength(segs, pieces); }
      ghost var more := q.buf[at..at + len];
      SliceJoin(q.buf, q.rpos, at, at + len);
      q.wpos := q.wpos + len;
      assert q.Holds(pieces[k] + more);
      NewLast(segs, pieces, pieces[k] + more);
      GrowLast(pieces, more);
      pieces := pieces[k := pieces[k] + more];
      queued := queued + len;
    }

    // iobuf_queue: the bytes go behind all others.
    method Queue(data: seq<byte>) returns (r: int)
      requires Valid()
      modifies this, segs
      ensures Valid() && r == |data| && enqueued == old(enqueued) + data && written == old(written)
      ensures forall s :: s in segs ==> s in old(segs) || fresh(s)
    {
      hide Flatten, Links, Hold, Distinct;
      if data == [] {
        assert enqueued + [] == enqueued;
        return 0;
      }
      ghost var before := Flatten(pieces);
      var q, at := Reserve(|data|);
      Fill(q, at, data);
      enqueued := enqueued + data;
      Assoc(written, before, data);
      r := |data|;
    }

    // memmove into the room reserved last
    method Fill(q: Segment, at: nat, data: seq<byte>)
      requires Linked() && segs != [] && q == segs[|segs| - 1] && data != [] && at >= q.rpos && q.wpos == at + |data| <= |q.buf|
      requires |Flatten(pieces)| >= |data|
      modifies `pieces, q`buf
      ensures Linked() && Flatten(pieces) == old(Flatten(pieces))[..old(|Flatten(pieces)|) - |data|] + data
    {
      hide Flatten, Links, Hold, Distinct;
      ghost var k := |segs| - 1;
      Front(segs, pieces);
      SameLength(segs, pieces);
      ghost var start := q.buf[q.rpos..at];
      ghost var tail := q.buf[at..q.wpos];
      assert pieces[k] == start + tail;
      q.buf := q.buf[..at] + data + q.buf[q.wpos..];
      assert q.Holds(start + data);
      NewLast(segs, pieces, start + data);
      ChangeLast(pieces, start, tail, data);
      pieces := pieces[k := start + data];
    }

    // iobuf_queuev: the pieces go behind all others, in order.
    method QueueV(iov: seq<seq<byte>>) returns (ok: bool)
      requires Valid()
      modifies this, segs
      ensures Valid() && ok == (Flatten(iov) != []) && enqueued == old(enqueued) + Flatten(iov) && written == old(written)
      ensures forall s :: s in segs ==> s in old(segs) || fresh(s)
    {
      hide Flatten, Links, Hold, Distinct;
      var data := [];
      assert iov[..0] == [] && Flatten(iov[..0]) == [] by { FlattenNone<byte>(); }
      for i := 0 to |iov|
        modifies {}
        invariant data == Flatten(iov[..i])
      {
        FlattenAppend(iov, i);
        data := data + iov[i];
      }
      assert iov[..|iov|] == iov;
      var r := Queue(data);
      ok := data != [];
    }

    // iobuf_drain: the first n bytes are gone, or all if there are fewer.
    method Drain(n: nat)
      requires Linked()
      modifies this, segs
      ensures Linked() && Flatten(pieces) == old(Flatten(pieces))[Min(n, old(|Flatten(pieces)|))..]
      ensures |segs| <= |old(segs)| && segs == old(segs)[|old(segs)| - |segs|..]
      ensures enqueued == old(enqueued) && written == old(written)
    {
      hide Flatten, Links, Hold, Distinct;
      var left: nat := n;
      ghost var all := Flatten(pieces);
      ghost var gone: nat := 0;
      assert all[0..] == all && segs[0..] == segs;
      while outq != null && left > 0
        invariant left <= n && n - left <= |all| && Flatten(pieces) == all[n - left..]
        invariant Hold(segs, pieces) && Links(segs, null) && Distinct(segs)
        invariant gone <= |old(segs)| && segs == old(segs)[gone..]
        invariant outq == (if segs == [] then null else segs[0]) && (segs != [] ==> outqlast == segs[|segs| - 1])
        invariant queued == |all| && enqueued == old(enqueued) && written == old(written)
        decreases left, |segs|
      {
        left, gone := DrainFirst(left, gone, all, n, old(segs));
      }
      if outq == null {
        EmptyChain(pieces, segs);
        assert all[|all|..] == [];
      }
      queued := queued - (n - left);
      if outq == null {
        outqlast := null;
      }
    }

    // iobuf_write: writev is offered the first IOV_MAX segments and takes n of their bytes,
    // or fails with n < 0.
    method Write(n0: int) returns (n: int)
      requires Valid()
      modifies this, segs
      ensures Valid() && enqueued == old(enqueued) && |segs| <= |old(segs)| && segs == old(segs)[|old(segs)| - |segs|..]
      ensures n0 < 0 ==> n == n0 && written == old(written)
      ensures n0 >= 0 ==> 0 <= n <= n0 && n <= |old(Flatten(pieces))| && written == old(written) + old(Flatten(pieces))[..n] && (n0 > 0 && old(queued) > 0 ==> n > 0)
    {
      hide Flatten, Links, Hold, Distinct;
      var iov := Gather();
      if n0 < 0 { return n0; }
      FlattenPrefix(pieces, |iov|);
      n := Min(n0, |Flatten(iov)|);
      ghost var all := Flatten(pieces);
      Drain(n);
      written := written + all[..n];
      Assoc(old(written), all[..n], all[n..]);
      assert all[..n] + all[n..] == all;
    }

    // The loop that fills the iovec.
    method Gather() returns (iov: seq<seq<byte>>)
      requires Linked()
      ensures |iov| == Min(|pieces|, IOV_MAX) && iov == pieces[..|iov|]
      ensures queued > 0 ==> Flatten(iov) != []
    {
      iov := [];
      var q := outq;
      var i := 0;
      while q != null && i < IOV_MAX
        invariant 0 <= i <= IOV_MAX && i == |iov| <= |pieces| && iov == pieces[..i]
        invariant q == if i < |segs| then segs[i] else null
      {
        assert segs[i].Holds(pieces[i]) && i + 1 < |segs| ==> segs[i].next == segs[i + 1];
        iov := iov + [q.buf[q.rpos..q.wpos]];
        q := q.next;
        i := i + 1;
      }
      if queued > 0 { FirstPiece(segs, pieces); }
    }

    // iobuf_flush: on success nothing is queued any more and all has been written.
    method Flush(accept: nat -> int) returns (r: int)
      requires Valid() && forall k :: accept(k) != 0
      modifies this, segs
      ensures Valid() && enqueued == old(enqueued) && old(written) <= written
      ensures r == 0 ==> queued == 0 && written == enqueued
      ensures r <= 0
    {
      hide Flatten, Links, Hold, Distinct;
      var k := 0;
      while queued > 0
        invariant Valid() && enqueued == old(enqueued) && old(written) <= written
        invariant |segs| <= |old(segs)| && segs == old(segs)[|old(segs)| - |segs|..]
        decreases queued
      {
        ghost var before, all := written, Flatten(pieces);
        assert accept(k) != 0 && |before| + |all| == |enqueued|;
        var n := Write(accept(k));
        if n < 0 { return n; }
        assert |written| == |before| + n && |written| + |Flatten(pieces)| == |enqueued|;
        k := k + 1;
      }
      assert written + [] == written;
      r := 0;
    }

    // One pass of the loop: part of the first segment, or all of it.
    method DrainFirst(left: nat, ghost gone: nat, ghost all: seq<byte>, ghost n: nat, ghost segs0: seq<Segment>) returns (left': nat, ghost gone': nat)
      requires 0 < left <= n && n - left <= |all| && Flatten(pieces) == all[n - left..] && segs != []
      requires Hold(segs, pieces) && Links(segs, null) && Distinct(segs) && gone <= |segs0| && segs == segs0[gone..]
      requires outq == segs[0] && outqlast == segs[|segs| - 1]
      modifies `segs, `pieces, `outq, segs`rpos
      ensures left' < left && n - left' <= |all| && Flatten(pieces) == all[n - left'..]
      ensures Hold(segs, pieces) && Links(segs, null) && Distinct(segs) && gone' <= |segs0| && segs == segs0[gone'..]
      ensures outq == (if segs == [] then null else segs[0]) && (segs != [] ==> outqlast == segs[|segs| - 1])
    {
      hide Flatten, Links, Hold, Distinct;
      var q := outq;
      Rear(segs, pieces);
      SameLength(segs, pieces);
      ghost var rest := pieces[1..];
      FlattenFirst(pieces);
      if q.wpos - q.rpos > left {
        ghost var piece := pieces[0][left..];
        q.rpos := q.rpos + left;
        assert q.Holds(piece);
        NewFirst(segs, pieces, piece);
        FlattenFirst(pieces[0 := piece]);
        assert pieces[0 := piece][1..] == rest;
        assert Flatten(pieces)[left..] == piece + Flatten(rest);
        assert all[n - left..][left..] == all[n..];
        pieces := pieces[0 := piece];
        left', gone' := 0, gone;
      } else {
        ghost var k := |pieces[0]|;
        left' := left - (q.wpos - q.rpos);
        outq := q.next;
        assert Flatten(pieces)[k..] == Flatten(rest);
        assert all[n - left..][k..] == all[n - left'..];
        segs, pieces := segs[1..], rest;
        gone' := gone + 1;
      }
    }

    // ioqbuf_alloc: an empty segment at the end of the chain
    method Alloc(len: nat) returns (q: Segment)
      requires Linked()
      modifies `outq, `outqlast, segs`next
      ensures fresh(q) && q.rpos == q.wpos == 0 && |q.buf| >= len && q.next == null
      ensures outqlast == q && outq == (if segs == [] then q else segs[0]) && Links(segs, q)
    {
      q := new Segment(Max(len, IOBUFQ_MIN));
      if outqlast == null {
        outq := q;
      } else {
        outqlast.next := q;
      }
      outqlast := q;
    }
  }

  lemma {:induction false} Snoc(segs: seq<Segment>, pieces: seq<seq<byte>>, q: Segment, piece: seq<byte>)
    requires Hold(segs, pieces) && Links(segs, q) && Distinct(segs) && q.Holds(piece) && q.next == null && q !in segs
    ensures Hold(segs + [q], pieces + [piece]) && Links(segs + [q], null) && Distinct(segs + [q])
  {
    var all := segs + [q];
    forall i, j | 0 <= i && i + 1 == j < |all|
      ensures all[i].next == all[j]
    {
      assert all[i] == segs[i] && (j < |segs| ==> all[j] == segs[j]);
    }
  }

  lemma {:induction false} SameLength(segs: seq<Segment>, pieces: seq<seq<byte>>)
    requires Hold(segs, pieces)
    ensures |pieces| == |segs|
  {
  }

  // The last segment holds a new piece.
  lemma {:induction false} NewLast(segs: seq<Segment>, pieces: seq<seq<byte>>, piece: seq<byte>)
    requires segs != [] && |pieces| == |segs| && Hold(segs[..|segs| - 1], pieces[..|segs| - 1]) && segs[|segs| - 1].Holds(piece)
    ensures Hold(segs, pieces[|segs| - 1 := piece])
  {
    var k := |segs| - 1;
    assert forall i :: 0 <= i < k ==> segs[i] == segs[..k][i] && pieces[i] == pieces[..k][i];
  }

  lemma {:induction false} Front(segs: seq<Segment>, pieces: seq<seq<byte>>)
    requires segs != [] && Hold(segs, pieces) && Distinct(segs)
    ensures var k := |segs| - 1; Hold(segs[..k], pieces[..k]) && segs[k].Holds(pieces[k]) && segs[k] !in segs[..k]
  {
  }

  lemma {:induction false} Rear(segs: seq<Segment>, pieces: seq<seq<byte>>)
    requires segs != [] && Hold(segs, pieces) && Distinct(segs) && Links(segs, null)
    ensures Hold(segs[1..], pieces[1..]) && segs[0].Holds(pieces[0]) && segs[0] !in segs[1..]
    ensures Distinct(segs[1..]) && Links(segs[1..], null) && segs[0].next == if |segs| > 1 then segs[1] else null
  {
    var rest := segs[1..];
    assert forall i :: 0 <= i < |rest| ==> rest[i] == segs[i + 1];
    assert |segs| > 1 ==> segs[0].next == segs[1];
  }

  lemma {:induction false} NewFirst(segs: seq<Segment>, pieces: seq<seq<byte>>, piece: seq<byte>)
    requires segs != [] && |pieces| == |segs| && Hold(segs[1..], pieces[1..]) && segs[0].Holds(piece)
    ensures Hold(segs, pieces[0 := piece])
  {
    assert forall i :: 0 < i < |segs| ==> segs[i] == segs[1..][i - 1] && pieces[i] == pieces[1..][i - 1];
  }

  lemma {:induction false} FlattenFirst(ps: seq<seq<byte>>)
    requires ps != []
    ensures Flatten(ps) == ps[0] + Flatten(ps[1..])
  {
  }

  lemma {:induction false} FirstPiece(segs: seq<Segment>, pieces: seq<seq<byte>>)
    requires Hold(segs, pieces) && Flatten(pieces) != []
    ensures pieces != [] && Flatten(pieces[..Min(|pieces|, IOV_MAX)]) != []
  {
    assert segs[0].Holds(pieces[0]);
    assert pieces[..Min(|pieces|, IOV_MAX)][0] == pieces[0];
  }

  lemma {:induction false} EmptyChain(pieces: seq<seq<byte>>, segs: seq<Segment>)
    requires segs == [] && Hold(segs, pieces)
    ensures Flatten(pieces) == []
  {
  }

  lemma {:induction false} GrowLast(ps: seq<seq<byte>>, more: seq<byte>)
    requires ps != []
    ensures Flatten(ps[|ps| - 1 := ps[|ps| - 1] + more]) == Flatten(ps) + more
  {
    hide Flatten;
    var front, last := ps[..|ps| - 1], ps[|ps| - 1];
    assert ps == front + [last] && ps[|ps| - 1 := last + more] == front + [last + more];
    FlattenConcat(front, [last]);
    FlattenConcat(front, [last + more]);
    FlattenOne(last);
    FlattenOne(last + more);
    Assoc(Flatten(front), last, more);
  }

  lemma {:induction false} ChangeLast(ps: seq<seq<byte>>, start: seq<byte>, tail: seq<byte>, data: seq<byte>)
    requires ps != [] && ps[|ps| - 1] == start + tail && |tail| == |data|
    ensures |Flatten(ps)| >= |data|
    ensures Flatten(ps[|ps| - 1 := start + data]) == Flatten(ps)[..|Flatten(ps)| - |data|] + data
  {
    hide Flatten;
    var k := |ps| - 1;
    GrowLast(ps[k := start], tail);
    GrowLast(ps[k := start], data);
    assert ps[k := start][k := start + tail] == ps && ps[k := start][k := start + data] == ps[k := start + data];
  }

  /*** Lines ***/

  // The complete lines of a byte string, and what follows the last of them.
  function Lines(s: seq<byte>): seq<seq<byte>> {
    var i := IndexOf(s, NEWLINE);
    if i == |s| then [] else [s[..i]] + Lines(s[i + 1..])
  }

  function Tail(s: seq<byte>): seq<byte> {
    var i := IndexOf(s, NEWLINE);
    if i == |s| then s else Tail(s[i + 1..])
  }

  function Joined(ls: seq<seq<byte>>): seq<byte> {
    if ls == [] then [] else ls[0] + [NEWLINE] + Joined(ls[1..])
  }

  ghost predicate OneLined(ls: seq<seq<byte>>) {
    forall i :: 0 <= i < |ls| ==> NEWLINE !in ls[i]
  }

  // A string is cut into lines in one way only.
  lemma {:induction false} LinesUnique(ls: seq<seq<byte>>, rest: seq<byte>)
    requires OneLined(ls) && NEWLINE !in rest
    ensures Lines(Joined(ls) + rest) == ls && Tail(Joined(ls) + rest) == rest
  {
    if ls == [] {
      assert Joined(ls) + rest == rest;
      NoIndex(rest, NEWLINE);
    } else {
      var s, more := Joined(ls) + rest, Joined(ls[1..]) + rest;
      assert s == ls[0] + [NEWLINE] + more;
      FirstIndex(ls[0], NEWLINE, more);
      assert s[..|ls[0]|] == ls[0] && s[|ls[0]| + 1..] == more;
      hide IndexOf;
      LinesUnique(ls[1..], rest);
      assert [ls[0]] + ls[1..] == ls;
    }
  }

  // The input side of struct iobuf
  class Input {
    const buf: array<byte>
    var rpos: nat
    var wpos: nat

    // all bytes read, and the lines handed out
    ghost var received: seq<byte>
    ghost var lines: seq<seq<byte>>

    ghost function Unread(): seq<byte>
      reads this, buf
    {
      if rpos <= wpos <= buf.Length then buf[rpos..wpos] else []
    }

    ghost predicate Valid()
      reads this, buf
    {
      && rpos <= wpos <= buf.Length && OneLined(lines) && received == Joined(lines) + Unread()
      && forall i :: 0 <= i < |lines| ==> |lines[i]| < buf.Length
    }

    // iobuf_init
    constructor (size: nat)
      ensures Valid() && received == [] && lines == [] && buf.Length == size && fresh(buf)
    {
      buf := new byte[size](i => 0);
      rpos, wpos, received, lines := 0, 0, [], [];
    }

    // iobuf_normalize
    method Normalize()
      requires Valid()
      modifies `rpos, `wpos, buf
      ensures Valid() && Unread() == old(Unread()) && rpos == 0
    {
      hide Joined;
      if rpos == 0 { return; }
      if rpos == wpos {
        rpos, wpos := 0, 0;
        return;
      }
      ghost var u := Unread();
      forall i | 0 <= i < wpos - rpos {
        buf[i] := buf[rpos + i];
      }
      wpos := wpos - rpos;
      rpos := 0;
      assert Unread() == u;
    }

    // iobuf_read of data
    method Read(data: seq<byte>)
      requires Valid() && |data| <= buf.Length - wpos
      modifies `wpos, `received, buf
      ensures Valid() && Unread() == old(Unread()) + data && received == old(received) + data
    {
      hide Joined;
      ghost var u := Unread();
      forall i | 0 <= i < |data| {
        buf[wpos + i] := data[i];
      }
      wpos := wpos + |data|;
      assert Unread() == u + data;
      received := received + data;
      Assoc(Joined(lines), u, data);
    }

    // iobuf_drop
    method Drop(n: nat)
      requires rpos <= wpos <= buf.Length
      modifies `rpos, `wpos
      ensures rpos <= wpos <= buf.Length && Unread() == old(Unread())[Min(n, old(|Unread()|))..]
      ensures n < old(|Unread()|) ==> rpos == old(rpos) + n && wpos == old(wpos)
      ensures n >= old(|Unread()|) ==> rpos == wpos == 0
    {
      if n >= wpos - rpos {
        rpos, wpos := 0, 0;
        return;
      }
      rpos := rpos + n;
    }

    // The line that ends at the i-th unread byte.
    method CutLine(i: nat) returns (l: seq<byte>)
      requires Valid() && i < wpos - rpos && buf[rpos + i] == NEWLINE && NEWLINE !in Unread()[..i]
      modifies this, buf
      ensures Valid() && received == old(received) && lines == old(lines) + [l] && old(Unread()) == l + [NEWLINE] + Unread()
    {
      hide Joined;
      ghost var u := Unread();
      CutAt(u, i);
      var start := rpos;
      l := buf[start..start + i];
      assert forall k :: 0 <= k < i ==> l[k] == u[k];
      assert l == u[..i];
      Drop(i + 1);
      ghost var rest := Unread();
      assert rest == u[i + 1..];
      buf[start + i] := 0;
      assert Unread() == rest;
      lines := lines + [l];
      JoinedAppend(old(lines), l, rest);
    }

    // iobuf_getline: the first line, which is dropped, if there is one. The byte behind the
    // line is overwritten in the buffer.
    method GetLine() returns (line: Option<seq<byte>>)
      requires Valid()
      modifies this, buf
      ensures Valid() && received == old(received)
      ensures line.None? ==> lines == old(lines) && Unread() == old(Unread()) && NEWLINE !in Unread()
      ensures line.Some? ==> lines == old(lines) + [line.value] && old(Unread()) == line.value + [NEWLINE] + Unread()
    {
      hide Joined;
      var start, len := rpos, wpos - rpos;
      ghost var u := Unread();
      var i := 0;
      while i + 1 <= len
        invariant 0 <= i <= len && NEWLINE !in u[..i]
        invariant Valid() && Unread() == u && rpos == start && wpos == start + len && lines == old(lines) && received == old(received)
      {
        if buf[start + i] == NEWLINE {
          var l := CutLine(i);
          return Some(l);
        }
        assert u[..i + 1] == u[..i] + [u[i]];
        i := i + 1;
      }
      assert u[..len] == u;
      line := None;
    }
  }

  lemma {:induction false} CutAt(u: seq<byte>, i: nat)
    requires i < |u| && u[i] == NEWLINE
    ensures u == u[..i] + [NEWLINE] + u[i + 1..]
  {
  }

  lemma {:induction false} JoinedAppend(ls: seq<seq<byte>>, l: seq<byte>, rest: seq<byte>)
    ensures Joined(ls + [l]) + rest == Joined(ls) + (l + [NEWLINE] + rest)
  {
    if ls == [] {
      assert ls + [l] == [l] && [l][1..] == [];
    } else {
      JoinedAppend(ls[1..], l, rest);
      assert (ls + [l])[1..] == ls[1..] + [l];
      Assoc(ls[0] + [NEWLINE], Joined(ls[1..] + [l]), rest);
      Assoc(ls[0] + [NEWLINE], Joined(ls[1..]), l + [NEWLINE] + rest);
    }
  }

  /*** Reading a stream ***/

  // Every line with its newline fits into size bytes, and so does what follows the last.
  ghost predicate ShortLines(s: seq<byte>, size: nat) {
    (forall i :: 0 <= i < |Lines(s)| ==> |Lines(s)[i]| < size) && |Tail(s)| <= size
  }

  // While more is to come, what is read and not yet a line does not fill the buffer.
  lemma {:induction false} ShortTail(s: seq<byte>, t: seq<byte>, size: nat)
    requires ShortLines(s + t, size) && t != []
    ensures |Tail(s)| < size
    decreases |s|
  {
    var i := IndexOf(s, NEWLINE);
    if i < |s| {
      var s', all := s[i + 1..], s + t;
      assert all == s[..i] + [NEWLINE] + (s' + t);
      FirstIndex(s[..i], NEWLINE, s' + t);
      assert all[i + 1..] == s' + t;
      assert forall k :: 0 <= k < |Lines(s' + t)| ==> Lines(s' + t)[k] == Lines(all)[k + 1];
      ShortTail(s', t, size);
    } else {
      BeforeNewline(s, t);
    }
  }

  lemma {:induction false} BeforeNewline(s: seq<byte>, t: seq<byte>)
    requires IndexOf(s, NEWLINE) == |s|
    ensures Lines(s + t) == [] ==> Tail(s + t) == s + t
    ensures Lines(s + t) != [] ==> |Lines(s + t)[0]| >= |s|
  {
    var i := IndexOf(s + t, NEWLINE);
    assert forall k :: 0 <= k < |s| ==> s[..|s|][k] == s[k] == (s + t)[k];
  }

  // A reader that fills the buffer and takes out lines, as io_dispatch and its callbacks do,
  // hands out the lines of the stream, however the kernel cuts it: take(k) is the size of
  // the k-th piece, as far as there is room and data. It gets to the end exactly if no line
  // is too long for the buffer; otherwise it stops at a full buffer, where read returns 0.
  method ReadLines(stream: seq<byte>, take: nat -> nat, size: nat) returns (io: Input, ok: bool)
    ensures io.Valid() && io.received <= stream && (ok <==> ShortLines(stream, size))
    ensures ok ==> io.lines == Lines(stream) && io.Unread() == Tail(stream)
  {
    hide Lines, Tail, Joined, ShortLines;
    io := new Input(size);
    var pos: nat, k := 0, 0;
    assert stream[..0] == [] && io.Unread() == [];
    while pos < |stream|
      invariant io.Valid() && fresh(io) && fresh(io.buf) && io.buf.Length == size
      invariant pos <= |stream| && io.received == stream[..pos] && NEWLINE !in io.Unread()
    {
      var more := ReadSome(io, stream, pos, take(k));
      if more == 0 { return io, false; }
      pos := pos + more;
      k := k + 1;
    }
    assert stream[..pos] == stream;
    LinesUnique(io.lines, io.Unread());
    AllShort(io.lines, io.Unread(), stream, size);
    ok := true;
  }

  lemma {:induction false} AllShort(ls: seq<seq<byte>>, rest: seq<byte>, s: seq<byte>, size: nat)
    requires Lines(s) == ls && Tail(s) == rest && |rest| <= size && forall i :: 0 <= i < |ls| ==> |ls[i]| < size
    ensures ShortLines(s, size)
  {
  }

  // One readable event: a piece of the stream is read, and the callback takes out lines.
  method ReadSome(io: Input, stream: seq<byte>, pos: nat, take: nat) returns (n: nat)
    requires io.Valid() && pos < |stream| && io.received == stream[..pos] && NEWLINE !in io.Unread()
    modifies io, io.buf
    ensures io.Valid() && pos + n <= |stream| && io.received == stream[..pos + n] && NEWLINE !in io.Unread()
    ensures n == 0 ==> !ShortLines(stream, io.buf.Length)
  {
    hide Lines, Tail, Joined, ShortLines;
    io.Normalize();
    if io.wpos == io.buf.Length {
      assert stream[..pos] + stream[pos..] == stream;
      LinesUnique(io.lines, io.Unread());
      if ShortLines(stream, io.buf.Length) { ShortTail(stream[..pos], stream[pos..], io.buf.Length); }
      return 0;
    }
    n := Max(1, Min(take, Min(io.buf.Length - io.wpos, |stream| - pos)));
    io.Read(stream[pos..pos + n]);
    assert stream[..pos] + stream[pos..pos + n] == stream[..pos + n];
    TakeLines(io);
  }

  // The callback: lines until there is none.
  method TakeLines(io: Input)
    requires io.Valid()
    modifies io, io.buf
    ensures io.Valid() && io.received == old(io.received) && NEWLINE !in io.Unread()
  {
    hide Joined;
    var line := io.GetLine();
    while line.Some?
      invariant io.Valid() && io.received == old(io.received) && (line.None? ==> NEWLINE !in io.Unread())
      decreases |io.Unread()| + if line.Some? then 1 else 0
    {
      line := io.GetLine();
    }
  }
}
