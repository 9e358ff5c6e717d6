/** The bounce engine (usr.sbin/smtpd/bounce.c): messages that wait, sessions that deliver
    them over half-duplex connections, sockets asked for, and a timer. Each method is the
    reaction to one event; what the clock, the queue and the peer say is a parameter. */
module Bounce {
  import opened Common
  import opened BounceQueue
  import BounceTree
  import Ioev
  import opened Keys
  import opened Splay

  const BOUNCE_MAXRUN: nat := 2

  datatype State = EHLO | MAIL | RCPT | DATA | DATA_NOTICE | DATA_MESSAGE | DATA_END | QUIT | CLOSE

  // struct bounce_session
  datatype Session = Session(smtpname: Text, msg: Option<Message>, state: State, io: Ioev.IoState)

  // How much a command or a piece of a message adds to the output.
  type Length = n: nat | n > 0 witness 1

  function Queue(io: Ioev.IoState, len: Length): Ioev.IoState {
    io.(queued := io.queued + len)
  }

  // An envelope as the queue loads it.
  datatype Envelope = Envelope(smtpname: Text, bounce: Text)

  // What bounce_io finds in the input, after continuation lines: nothing yet, a line that is
  // too long, a line that is no response, or a response with its first digit.
  datatype Input = Partial | TooLong | Bad | Response(digit: nat)

  // How copying the message into the output ends.
  datatype Copying = HiWater | ReadError | EndOfFile

  /*** Envelopes and messages ***/

  ghost function EnvIds(m: Message): multiset<nat> {
    multiset(m.envelopes)
  }

  ghost function Ids(ms: seq<Message>): multiset<nat> {
    if ms == [] then multiset{} else EnvIds(ms[0]) + Ids(ms[1..])
  }

  ghost function MsgIds(s: Session): multiset<nat> {
    if s.msg.Some? then EnvIds(s.msg.value) else multiset{}
  }

  ghost function HeldIds(ss: seq<Session>): multiset<nat> {
    if ss == [] then multiset{} else MsgIds(ss[0]) + HeldIds(ss[1..])
  }

  function Held(ss: seq<Session>): nat {
    if ss == [] then 0 else (if ss[0].msg.Some? then 1 else 0) + Held(ss[1..])
  }

  lemma {:induction false} SumAssoc(a: multiset<nat>, b: multiset<nat>, c: multiset<nat>)
    ensures (a + b) + c == a + (b + c)
  {
  }

  lemma {:induction false} SumNone(a: multiset<nat>)
    ensures multiset{} + a == a && a + multiset{} == a
  {
  }

  lemma {:induction false} IdsConcat(a: seq<Message>, b: seq<Message>)
    ensures Ids(a + b) == Ids(a) + Ids(b)
  {
    hide EnvIds;
    if a == [] {
      assert a + b == b;
      SumNone(Ids(b));
    } else {
      IdsConcat(a[1..], b);
      assert (a + b)[1..] == a[1..] + b && (a + b)[0] == a[0];
      SumAssoc(EnvIds(a[0]), Ids(a[1..]), Ids(b));
    }
  }

  lemma {:induction false} IdsWithout(ms: seq<Message>, i: nat)
    requires i < |ms|
    ensures Ids(ms) == Ids(ms[..i] + ms[i + 1..]) + EnvIds(ms[i])
  {
    hide EnvIds;
    assert ms == ms[..i] + ([ms[i]] + ms[i + 1..]);
    IdsConcat(ms[..i], [ms[i]] + ms[i + 1..]);
    IdsConcat([ms[i]], ms[i + 1..]);
    IdsConcat(ms[..i], ms[i + 1..]);
    assert [ms[i]][1..] == [];
  }

  lemma {:induction false} HeldConcat(a: seq<Session>, b: seq<Session>)
    ensures Held(a + b) == Held(a) + Held(b) && HeldIds(a + b) == HeldIds(a) + HeldIds(b)
  {
    hide MsgIds;
    if a == [] {
      assert a + b == b;
      SumNone(HeldIds(b));
    } else {
      HeldConcat(a[1..], b);
      assert (a + b)[1..] == a[1..] + b && (a + b)[0] == a[0];
      SumAssoc(MsgIds(a[0]), HeldIds(a[1..]), HeldIds(b));
    }
  }

  lemma {:induction false} HeldOne(s: Session)
    ensures Held([s]) == (if s.msg.Some? then 1 else 0) && HeldIds([s]) == MsgIds(s)
  {
    assert [s][1..] == [];
  }

  // Replacing or removing a session changes the sums by that session.
  lemma {:induction false} HeldSplit(ss: seq<Session>, i: nat, s: Session)
    requires i < |ss|
    ensures Held(ss) == Held(ss[..i] + ss[i + 1..]) + Held([ss[i]]) && HeldIds(ss) == HeldIds(ss[..i] + ss[i + 1..]) + MsgIds(ss[i])
    ensures Held(ss[i := s]) == Held(ss[..i] + ss[i + 1..]) + Held([s]) && HeldIds(ss[i := s]) == HeldIds(ss[..i] + ss[i + 1..]) + MsgIds(s)
  {
    hide Held, HeldIds;
    var a, b := ss[..i], ss[i + 1..];
    assert ss == a + ([ss[i]] + b) && ss[i := s] == a + ([s] + b);
    HeldConcat(a, [ss[i]] + b);
    HeldConcat([ss[i]], b);
    HeldConcat(a, [s] + b);
    HeldConcat([s], b);
    HeldConcat(a, b);
    HeldOne(ss[i]);
    HeldOne(s);
  }

  // Ids of the reports sent to the scheduler.
  ghost function ReportIds(rs: seq<(nat, Delivery)>): multiset<nat> {
    if rs == [] then multiset{} else ReportIds(rs[..|rs| - 1]) + multiset{rs[|rs| - 1].0}
  }

  /*** The engine ***/

  // A session between events: it holds a message exactly while it delivers it, and it waits
  // for input, or has output queued and waits for that to go out.
  predicate GoodSession(s: Session) {
    && (s.msg.Some? <==> s.state in {RCPT, DATA, DATA_NOTICE, DATA_MESSAGE, DATA_END})
    && s.state != QUIT && GoodIo(s.io) && (s.state == DATA_MESSAGE ==> s.io.writing)
    && (s.state == EHLO ==> s.io.reading)
  }

  predicate GoodIo(io: Ioev.IoState) {
    io.reading != io.writing && !io.pausedIn && !io.pausedOut && io.lowat == 0 && (io.writing <==> io.queued > 0)
  }

  class Engine {
    const tree: BounceTree.MessageTree
    var pending: seq<Message>
    var nmessage: int
    var running: int
    var timer: Option<int>
    var sessions: seq<Session>

    // sockets asked for and not yet received, ids added, reports sent, and the latest time
    ghost var requested: nat
    ghost var added: multiset<nat>
    ghost var reported: seq<(nat, Delivery)>
    ghost var clock: int

    ghost predicate Valid()
      reads this, tree`keys, tree`nodes, tree.head`root, tree.head`tree, tree.nodes`left, tree.nodes`right
    {
      && Conserved() && Counted() && Queued()
      && forall i :: 0 <= i < |sessions| ==> GoodSession(sessions[i])
    }

    // Every id added is in a waiting message, in a message held by a session, or reported.
    ghost predicate Conserved()
      reads `added, `pending, `sessions, `reported
    {
      added == Sum(Ids(pending), HeldIds(sessions), ReportIds(reported))
    }

    ghost predicate Counted()
      reads `nmessage, `pending, `sessions, `running, `requested
    {
      nmessage == |pending| + Held(sessions) && running == requested + |sessions| <= BOUNCE_MAXRUN
    }

    // The tree holds the waiting messages.
    ghost predicate Queued()
      reads `pending, `timer, `clock, tree`keys, tree`nodes, tree.head`root, tree.head`tree, tree.nodes`left, tree.nodes`right
    {
      tree.Valid() && tree.keys == KeysOf(pending) && Listed()
    }

    // The waiting messages are in the order of their timeouts; the timer, if set, does not go
    // off after any of them.
    ghost predicate Listed()
      reads `pending, `timer, `clock
    {
      && DistinctKeys(pending) && ByTimeout(pending)
      && (forall i :: 0 <= i < |pending| ==> pending[i].timeout <= clock + 1 && pending[i].envelopes != [])
      && (timer.Some? ==> timer.value <= clock + 1 && forall i :: 0 <= i < |pending| ==> timer.value <= pending[i].timeout)
    }

    // Enough sessions are on their way, or nothing waits, or the timer will go off in time.
    ghost predicate Progress()
      reads this
    {
      running >= Min(BOUNCE_MAXRUN, nmessage) || pending == [] || timer.Some?
    }

    // bounce_init
    constructor (now: int)
      ensures fresh(tree) && fresh(tree.head) && tree.nodes == {}
      ensures Valid() && Progress() && added == multiset{} && requested == 0 && clock == now && Snap() == Snapshot([], [], 0, 0, None, [])
    {
      tree := new BounceTree.MessageTree();
      pending, nmessage, running, timer, sessions := [], 0, 0, None, [];
      requested, added, reported, clock := 0, multiset{}, [], now;
    }

    // bounce_drain
    method Drain(now: int)
      requires Valid() && clock == now
      modifies `running, `requested, `timer
      ensures Valid() && Progress() && running >= old(running)
      ensures running > old(running) ==> running <= nmessage && pending != [] && pending[0].timeout <= now
      ensures timer != old(timer) ==> old(timer).None? && pending != [] && pending[0].timeout > now && timer == Some(pending[0].timeout)
      ensures (running, timer) == DrainTo(pending, nmessage, old(running), old(timer), now)
    {
      hide Conserved, Ids, HeldIds, Held, GoodSession;
      while true
        invariant Valid() && running >= old(running) && timer == old(timer)
        invariant running > old(running) ==> running <= Min(BOUNCE_MAXRUN, nmessage) && pending != [] && pending[0].timeout <= now
        decreases BOUNCE_MAXRUN - running
      {
        if running >= BOUNCE_MAXRUN { return; }
        if nmessage == 0 { return; }
        if running >= nmessage { return; }
        if pending == [] { return; }
        var msg := pending[0];
        if msg.timeout > now {
          if timer.None? {
            timer := Some(now + (msg.timeout - now));
          }
          return;
        }
        requested := requested + 1;
        running := running + 1;
      }
    }

    // An event is being handled for session i, which may be in any state.
    ghost predicate Handling(i: nat)
      reads this, tree`keys, tree`nodes, tree.head`root, tree.head`tree, tree.nodes`left, tree.nodes`right
    {
      && Conserved() && Counted() && Queued() && i < |sessions|
      && forall j :: 0 <= j < |sessions| && j != i ==> GoodSession(sessions[j])
    }

    // bounce_delivery of a message that is in neither the list nor a session
    method Deliver(msg: Message, delivery: Delivery)
      modifies `reported, `nmessage
      ensures nmessage == old(nmessage) - 1 && reported == old(reported) + Reports(msg.envelopes, delivery)
      ensures ReportIds(reported) == ReportIds(old(reported)) + EnvIds(msg)
    {
      hide ReportIds, Reports;
      var n := 0;
      ReportNone(reported, msg.envelopes, delivery);
      while n < |msg.envelopes|
        invariant n <= |msg.envelopes| && nmessage == old(nmessage)
        invariant reported == old(reported) + Reports(msg.envelopes[..n], delivery)
        invariant ReportIds(reported) == ReportIds(old(reported)) + multiset(msg.envelopes[..n])
      {
        ReportOne(old(reported), msg.envelopes, n, delivery, reported);
        reported := reported + [(msg.envelopes[n], delivery)];
        n := n + 1;
      }
      assert msg.envelopes[..n] == msg.envelopes;
      nmessage := nmessage - 1;
    }

    // The first waiting message that is due and goes out under the session's name.
    method FindDue(smtpname: Text, now: int) returns (k: nat)
      ensures k <= |pending| && (k < |pending| ==> Due(pending[k], smtpname, now))
      ensures forall j :: 0 <= j < k ==> !Due(pending[j], smtpname, now)
    {
      k := 0;
      while k < |pending| && !(pending[k].timeout <= now && pending[k].key.smtpname == smtpname)
        invariant k <= |pending|
        invariant forall j :: 0 <= j < k ==> !Due(pending[j], smtpname, now)
      {
        k := k + 1;
      }
    }

    // TAILQ_REMOVE
    method Unlink(k: nat) returns (msg: Message)
      requires Listed() && k < |pending|
      modifies `pending
      ensures Listed() && msg == old(pending)[k] && pending == old(pending)[..k] + old(pending)[k + 1..]
      ensures KeysOf(pending) == KeysOf(old(pending)) - {msg.key} && Ids(old(pending)) == Ids(pending) + EnvIds(msg)
    {
      hide Ids, EnvIds;
      IdsWithout(pending, k);
      KeysWithout(pending, k);
      msg := pending[k];
      pending := pending[..k] + pending[k + 1..];
    }

    method TakeOut(k: nat) returns (msg: Message)
      requires Queued() && k < |pending|
      modifies `pending, tree, tree.head, tree.nodes
      ensures Queued() && msg == old(pending)[k] && pending == old(pending)[..k] + old(pending)[k + 1..]
      ensures Ids(old(pending)) == Ids(pending) + EnvIds(msg) && tree.nodes <= old(tree.nodes)
    {
      hide Ids, EnvIds, Listed;
      assert pending[k].key in KeysOf(pending);
      msg := Unlink(k);
      tree.Remove(msg.key);
    }

    // bounce_next_message for a session without a message: the first due message that can be
    // opened leaves the list; those before it that cannot are reported as failing for now.
    method NextMessage(i: nat, now: int, opens: nat -> bool) returns (msg: Option<Message>)
      requires Handling(i) && sessions[i].msg.None?
      modifies `pending, tree, tree.head, tree.nodes, `nmessage, `reported
      ensures tree.nodes <= old(tree.nodes)
      ensures Queued() && |pending| <= |old(pending)|
      ensures added == Sum(Ids(pending), HeldIds(sessions), ReportIds(reported)) + (if msg.Some? then EnvIds(msg.value) else multiset{})
      ensures nmessage == |pending| + Held(sessions) + (if msg.Some? then 1 else 0)
      ensures nmessage <= old(nmessage) && (pending != [] ==> old(pending) != [])
      ensures var p := PickFrom(old(pending), sessions[i].smtpname, now, opens, 0);
              msg == p.msg && pending == p.rest && reported == old(reported) + AllReports(p.failed)
    {
      hide Sum, Ids, EnvIds, HeldIds, Held, ReportIds, Queued, Reports, PickFrom, AllReports;
      var tries := 0;
      ghost var n, failed: seq<Message> := |pending|, [];
      PickNone(pending, reported, sessions[i].smtpname, now, opens);
      while true
        invariant Queued() && Conserved() && nmessage == |pending| + Held(sessions)
        invariant tree.nodes <= old(tree.nodes)
        invariant |pending| <= n && nmessage <= old(nmessage) && reported == old(reported) + AllReports(failed)
        invariant PicksOn(old(pending), sessions[i].smtpname, now, opens, failed, pending, tries)
        decreases |pending|
      {
        var k := FindDue(sessions[i].smtpname, now);
        PickStep(old(pending), sessions[i].smtpname, now, opens, failed, pending, tries, k);
        if k == |pending| {
          SumNone(added);
          return None;
        }
        ghost var rs := ReportIds(reported);
        var m := TakeOut(k);
        Moved(Ids(pending), EnvIds(m), HeldIds(sessions), rs);
        if opens(tries) {
          return Some(m);
        }
        Deliver(m, TEMPFAIL);
        AllReportsAppend(old(reported), failed, m);
        tries := tries + 1;
        failed := failed + [m];
      }
    }

    // bounce_status: a held message is reported and let go.
    method Status(i: nat, d: Delivery)
      requires i < |sessions| && Handling(i)
      modifies `sessions, `reported, `nmessage
      ensures Handling(i) && sessions == old(sessions)[i := old(sessions)[i].(msg := None)] && nmessage <= old(nmessage)
      ensures reported == old(reported) + match old(sessions)[i].msg { case None => [] case Some(m) => Reports(m.envelopes, d) }
    {
      hide Sum, Ids, EnvIds, HeldIds, Held, ReportIds, Queued, Reports;
      var s := sessions[i];
      match s.msg {
        case None =>
          assert sessions[i := s.(msg := None)] == sessions;
        case Some(m) =>
          ghost var p, r, rest := Ids(pending), ReportIds(reported), HeldIds(sessions[..i] + sessions[i + 1..]);
          HeldSplit(sessions, i, s.(msg := None));
          HeldOne(s);
          HeldOne(s.(msg := None));
          Deliver(m, d);
          sessions := sessions[i := s.(msg := None)];
          Moved(p, EnvIds(m), rest, r);
          SumNone(rest);
      }
    }

    // bounce_free of a session without a message
    method Free(i: nat, now: int)
      requires i < |sessions| && Handling(i) && sessions[i].msg.None? && clock == now
      modifies `sessions, `running, `requested, `timer
      ensures Valid() && Progress() && sessions == old(sessions)[..i] + old(sessions)[i + 1..]
      ensures (running, timer) == DrainTo(pending, nmessage, old(running) - 1, old(timer), now)
    {
      hide DrainTo, Sum, Ids, EnvIds, HeldIds, Held, ReportIds, Queued, GoodSession;
      HeldSplit(sessions, i, sessions[i]);
      HeldOne(sessions[i]);
      SumNone(HeldIds(sessions[..i] + sessions[i + 1..]));
      ghost var before := sessions;
      sessions := sessions[..i] + sessions[i + 1..];
      running := running - 1;
      assert forall j :: 0 <= j < |sessions| ==> sessions[j] == before[if j < i then j else j + 1];
      Drain(now);
    }

    // bounce_next: the session's next command, or the next piece of the message.
    method Next(i: nat, now: int, opens: nat -> bool, copying: Copying, len: Length) returns (ok: bool)
      requires i < |sessions| && Handling(i) && clock == now && Ready(sessions[i])
      modifies `sessions, `pending, tree, tree.head, tree.nodes, `nmessage, `reported
      ensures tree.nodes <= old(tree.nodes)
      ensures Handling(i) && |sessions| == |old(sessions)| && nmessage <= old(nmessage) && (old(pending) == [] ==> pending == [])
      ensures var p := Taken(old(sessions)[i], old(pending), now, opens);
              pending == p.rest && (ok ==> sessions[i].msg == p.msg) && reported == old(reported) + AllReports(p.failed) + if ok then [] else Reported(old(sessions)[i], Bad)
      ensures sessions[i].smtpname == old(sessions)[i].smtpname
      ensures sessions[..i] == old(sessions)[..i] && sessions[i + 1..] == old(sessions)[i + 1..]
      ensures ok <==> !(old(sessions)[i].state == DATA_MESSAGE && copying == ReadError)
      ensures ok ==> sessions[i].io == Queue(old(sessions)[i].io, len) && After(old(sessions)[i], sessions[i], copying)
      ensures !ok ==> sessions[i].msg.None?
    {
      hide Handling, Reports, AllReports, PickFrom;
      var s := sessions[i];
      AllReportsNone();
      match s.state
      case EHLO =>
        Put(i, s.(state := MAIL, io := Queue(s.io, len)));
        ok := true;
      case MAIL =>
        FetchMessage(i, now, opens, len);
        ok := true;
      case DATA_END =>
        FetchMessage(i, now, opens, len);
        ok := true;
      case RCPT =>
        Put(i, s.(state := DATA, io := Queue(s.io, len)));
        ok := true;
      case DATA =>
        Put(i, s.(state := DATA_NOTICE, io := Queue(s.io, len)));
        ok := true;
      case DATA_NOTICE =>
        Put(i, s.(state := DATA_MESSAGE, io := Queue(s.io, len)));
        ok := true;
      case DATA_MESSAGE =>
        if copying == ReadError {
          Status(i, TEMPFAIL);
          return false;
        }
        Put(i, s.(state := if copying == EndOfFile then DATA_END else DATA_MESSAGE, io := Queue(s.io, len)));
        ok := true;
      case QUIT =>
        Put(i, s.(state := CLOSE, io := Queue(s.io, len)));
        ok := true;
    }

    // The case of bounce_next that looks for a message to send.
    method FetchMessage(i: nat, now: int, opens: nat -> bool, len: Length)
      requires i < |sessions| && Handling(i) && sessions[i].msg.None?
      modifies `sessions, `pending, tree, tree.head, tree.nodes, `nmessage, `reported
      ensures tree.nodes <= old(tree.nodes)
      ensures Handling(i) && nmessage <= old(nmessage) && (old(pending) == [] ==> pending == [])
      ensures var p := PickFrom(old(pending), old(sessions)[i].smtpname, now, opens, 0);
              && pending == p.rest && reported == old(reported) + AllReports(p.failed)
              && sessions == old(sessions)[i := old(sessions)[i].(msg := p.msg, state := if p.msg.None? then CLOSE else RCPT, io := Queue(old(sessions)[i].io, len))]
    {
      hide Sum, Ids, HeldIds, Held, ReportIds, Queued, Reports, AllReports, PickFrom;
      var s := sessions[i];
      var m := NextMessage(i, now, opens);
      Hold(i, s.(msg := m, state := if m.None? then CLOSE else RCPT, io := Queue(s.io, len)));
    }

    // A session gets the message that has left the list, if any.
    method Hold(i: nat, s: Session)
      requires Queued() && i < |sessions| && sessions[i].msg.None? && running == requested + |sessions| <= BOUNCE_MAXRUN
      requires added == Sum(Ids(pending), HeldIds(sessions), ReportIds(reported)) + MsgIds(s)
      requires nmessage == |pending| + Held(sessions) + (if s.msg.Some? then 1 else 0)
      requires forall j :: 0 <= j < |sessions| && j != i ==> GoodSession(sessions[j])
      modifies `sessions
      ensures Handling(i) && sessions == old(sessions)[i := s]
    {
      hide Sum, Ids, EnvIds, HeldIds, Held, ReportIds, Queued, GoodSession;
      HeldSplit(sessions, i, s);
      HeldOne(sessions[i]);
      HeldOne(s);
      SumNone(HeldIds(sessions[..i] + sessions[i + 1..]));
      sessions := sessions[i := s];
      Moved(Ids(pending), MsgIds(s), HeldIds(sessions[..i] + sessions[i + 1..]), ReportIds(reported));
      assert old(sessions)[..i] + old(sessions)[i + 1..] == sessions[..i] + sessions[i + 1..];
    }

    // A new value for a session that keeps its message.
    method Put(i: nat, s: Session)
      requires i < |sessions| && Handling(i) && s.msg == sessions[i].msg
      modifies `sessions
      ensures Handling(i) && sessions == old(sessions)[i := s]
    {
      hide Sum, Ids, EnvIds, HeldIds, Held, ReportIds, Queued, GoodSession;
      HeldSplit(sessions, i, s);
      HeldOne(sessions[i]);
      HeldOne(s);
      sessions := sessions[i := s];
    }

    /*** Events ***/

    // bounce_add: the envelope joins the waiting message of its kind, which goes to the end
    // of the list, or starts a new one; an envelope that cannot be loaded is reported.
    method Add(evpid: nat, loaded: Option<Envelope>, now: int)
      requires Valid() && Progress() && clock <= now
      modifies this, tree, tree.head, tree.nodes
      ensures forall n :: n in tree.nodes ==> n in old(tree.nodes) || fresh(n)
      ensures Valid() && Progress() && clock == now && added == old(added) + multiset{evpid} && sessions == old(sessions)
      ensures (running, timer) == if loaded.None? then (old(running), old(timer)) else DrainTo(pending, nmessage, old(running), old(timer), now)
      ensures loaded.None? ==> pending == old(pending) && reported == old(reported) + [(evpid, PERMFAIL)]
      ensures loaded.Some? ==>
                reported == old(reported) &&
                Joins(old(pending), pending, Key(evpid / 0x1_0000_0000, loaded.value.smtpname, loaded.value.bounce), evpid, now + 1)
    {
      hide Conserved, Counted, Queued, GoodSession, Joins, DrainTo;
      clock := now;
      match loaded {
        case None =>
          Later();
          AddMissing(evpid);
        case Some(e) =>
          Later();
          AddLoaded(evpid, Key(evpid / 0x1_0000_0000, e.smtpname, e.bounce), now);
          Drain(now);
      }
    }

    method AddMissing(evpid: nat)
      requires Valid()
      modifies `added, `reported
      ensures Valid() && added == old(added) + multiset{evpid} && reported == old(reported) + [(evpid, PERMFAIL)]
    {
      hide Sum, Ids, EnvIds, HeldIds, ReportIds, Counted, Queued, GoodSession;
      ReportLast(reported, (evpid, PERMFAIL));
      Moved(Ids(pending), multiset{evpid}, HeldIds(sessions), ReportIds(reported));
      added := added + multiset{evpid};
      reported := reported + [(evpid, PERMFAIL)];
    }

    method AddLoaded(evpid: nat, key: Key, now: int)
      requires Valid() && clock == now
      modifies `added, `nmessage, `pending, tree, tree.head, tree.nodes
      ensures Valid() && added == old(added) + multiset{evpid}
      ensures Joins(old(pending), pending, key, evpid, now + 1)
      ensures forall n :: n in tree.nodes ==> n in old(tree.nodes) || fresh(n)
    {
      hide Sum, Ids, EnvIds, HeldIds, Held, ReportIds, GoodSession, Joins, KeysOf, Queued;
      ghost var p, h, r := Ids(pending), HeldIds(sessions), ReportIds(reported);
      var found := Filed(key);
      if !found {
        nmessage := nmessage + 1;
        AddNew(evpid, key, now);
      } else {
        AddOld(evpid, key, now);
      }
      added := added + multiset{evpid};
      Moved(p, multiset{evpid}, h, r);
    }

    // SPLAY_FIND
    method Filed(key: Key) returns (found: bool)
      requires Queued()
      modifies tree.head, tree.nodes
      ensures Queued() && (found <==> key in KeysOf(pending))
    {
      hide Listed, KeysOf;
      found := tree.Find(key);
    }

    method AddNew(evpid: nat, key: Key, now: int)
      requires Queued() && clock == now && key !in KeysOf(pending)
      modifies `pending, tree, tree.head, tree.nodes
      ensures Queued() && |pending| == |old(pending)| + 1 && Ids(pending) == Ids(old(pending)) + multiset{evpid}
      ensures Joins(old(pending), pending, key, evpid, now + 1)
      ensures forall n :: n in tree.nodes ==> n in old(tree.nodes) || fresh(n)
    {
      hide Ids, EnvIds, Joins, KeysOf, Listed;
      var msg := Message(key, 0, []);
      tree.Insert(key);
      JoinsNew(pending, key, evpid, now + 1);
      EmptyIds(msg);
      SumNone(Ids(pending));
      Link(msg.(envelopes := msg.envelopes + [evpid], timeout := now + 1), msg, evpid);
    }

    method AddOld(evpid: nat, key: Key, now: int)
      requires Queued() && clock == now && key in KeysOf(pending)
      modifies `pending
      ensures Queued() && |pending| == |old(pending)| && Ids(pending) == Ids(old(pending)) + multiset{evpid}
      ensures Joins(old(pending), pending, key, evpid, now + 1)
    {
      hide Ids, EnvIds, Joins, KeysOf, Listed;
      var k := Position(key);
      JoinsOld(pending, k, key, evpid, now + 1);
      var msg := Unlink(k);
      Link(msg.(envelopes := msg.envelopes + [evpid], timeout := now + 1), msg, evpid);
    }

    // Where the message found in the tree stands on the list.
    method Position(key: Key) returns (k: nat)
      requires key in KeysOf(pending)
      ensures k < |pending| && pending[k].key == key
    {
      k := 0;
      while pending[k].key != key
        invariant k < |pending| && forall j :: 0 <= j < k ==> pending[j].key != key
        decreases |pending| - k
      {
        k := k + 1;
      }
    }

    // TAILQ_INSERT_TAIL of msg with one more envelope
    method Link(m: Message, ghost msg: Message, ghost evpid: nat)
      requires Listed() && msg.key !in KeysOf(pending) && m == msg.(envelopes := msg.envelopes + [evpid], timeout := clock + 1)
      modifies `pending
      ensures Listed() && pending == old(pending) + [m] && KeysOf(pending) == KeysOf(old(pending)) + {m.key}
      ensures Ids(pending) == Ids(old(pending)) + EnvIds(msg) + multiset{evpid}
    {
      hide Ids;
      IdsConcat(pending, [m]);
      IdsOne(m);
      assert multiset(m.envelopes) == multiset(msg.envelopes) + multiset{evpid};
      SumAssoc(Ids(pending), EnvIds(msg), multiset{evpid});
      KeysAppend(pending, m);
      pending := pending + [m];
    }

    // bounce_fd: a socket asked for has come, or will not come.
    method Fd(ok: bool, now: int)
      requires Valid() && Progress() && clock <= now && requested > 0
      modifies this
      ensures Valid() && Progress() && clock == now && added == old(added) && reported == old(reported) && pending == old(pending)
      ensures sessions == old(sessions) + if ok && pending != [] then [Session(pending[0].key.smtpname, None, EHLO, Ioev.ReadOnly(Ioev.NEW))] else []
      ensures (running, timer) == if ok && pending != [] then (old(running), old(timer)) else DrainTo(pending, nmessage, old(running) - 1, old(timer), now)
    {
      hide DrainTo, Conserved, Queued, GoodSession;
      clock := now;
      Later();
      if !ok || pending == [] {
        requested := requested - 1;
        running := running - 1;
        assert sessions + [] == sessions;
        Drain(now);
        return;
      }
      Begin();
    }

    // A new session for the first waiting message.
    method Begin()
      requires Valid() && Progress() && requested > 0 && pending != []
      modifies `requested, `sessions
      ensures Valid() && Progress() && sessions == old(sessions) + [Session(pending[0].key.smtpname, None, EHLO, Ioev.ReadOnly(Ioev.NEW))]
    {
      hide Sum, Ids, EnvIds, HeldIds, Held, ReportIds, Queued;
      var s := Session(pending[0].key.smtpname, None, EHLO, Ioev.ReadOnly(Ioev.NEW));
      HeldConcat(sessions, [s]);
      HeldOne(s);
      SumNone(HeldIds(sessions));
      requested := requested - 1;
      sessions := sessions + [s];
    }

    // bounce_timeout
    method Timeout(now: int)
      requires Valid() && Progress() && clock <= now && timer.Some? && timer.value <= now
      modifies this
      ensures Valid() && Progress() && clock == now && added == old(added) && reported == old(reported)
      ensures pending == old(pending) && sessions == old(sessions)
      ensures (running, timer) == DrainTo(pending, nmessage, old(running), None, now)
    {
      hide DrainTo, Sum, Ids, EnvIds, HeldIds, Held, ReportIds, GoodSession;
      clock := now;
      timer := None;
      Drain(now);
    }

    // bounce_io with IO_DATAIN. It comes only while the session reads, so that io_set_write
    // cannot fail.
    method DataIn(i: nat, input: Input, now: int, opens: nat -> bool, len: Length)
      requires Valid() && Progress() && clock <= now && i < |sessions| && Ioev.CanTell(sessions[i].io, Ioev.DATAIN)
      modifies this, tree, tree.head, tree.nodes
      ensures forall n :: n in tree.nodes ==> n in old(tree.nodes) || fresh(n)
      ensures Valid() && Progress() && clock == now && added == old(added)
      ensures var p := HeardPick(old(sessions)[i], input, old(pending), now, opens);
              && Heard(old(sessions), i, input, len, p.msg, sessions)
              && pending == p.rest && reported == old(reported) + Reported(old(sessions)[i], input) + AllReports(p.failed)
      ensures DrainedIf(|sessions| < |old(sessions)|, pending, nmessage, old(running), old(timer), now, running, timer)
    {
      hide Sum, Ids, EnvIds, HeldIds, Held, ReportIds, Reports, Queued, Conserved, Counted, AllReports, Taken, DrainTo;
      clock := now;
      Later();
      var s := sessions[i];
      AllReportsNone();
      match input {
        case Partial =>
        case TooLong => GiveUp(i, now);
        case Bad => GiveUp(i, now);
        case Response(digit) =>
          if s.state == CLOSE {
            Free(i, now);
            return;
          }
          Answer(i, digit, now, opens, len);
      }
    }

    // The end of that case: the response is noted, and the next command goes out.
    method Answer(i: nat, digit: nat, now: int, opens: nat -> bool, len: Length)
      requires Valid() && Progress() && clock == now && i < |sessions| && sessions[i].io.reading && sessions[i].state != CLOSE
      modifies this, tree, tree.head, tree.nodes
      ensures forall n :: n in tree.nodes ==> n in old(tree.nodes) || fresh(n)
      ensures Valid() && Progress() && clock == now && added == old(added)
      ensures running == old(running) && timer == old(timer)
      ensures var p := Taken(Noted(old(sessions)[i], digit), old(pending), now, opens);
              && Answered(old(sessions), i, digit, len, p.msg, sessions)
              && pending == p.rest && reported == old(reported) + Reported(old(sessions)[i], Response(digit)) + AllReports(p.failed)
    {
      hide Sum, Ids, EnvIds, HeldIds, Held, ReportIds, Reports, Queued, Reported, Conserved, Counted, AllReports, Taken;
      Note(i, digit);
      var ok := Next(i, now, opens, HiWater, len);
      assert ok && !sessions[i].io.writing;
      Put(i, sessions[i].(io := Ioev.WriteOnly(sessions[i].io)));
    }

    // What a response does to the message; afterwards the next command can be chosen.
    method Note(i: nat, digit: nat)
      requires Valid() && i < |sessions| && sessions[i].io.reading && sessions[i].state != CLOSE
      modifies `sessions, `reported, `nmessage
      ensures Handling(i) && Ready(sessions[i]) && sessions[i].state != DATA_MESSAGE && nmessage <= old(nmessage)
      ensures sessions == old(sessions)[i := Noted(old(sessions)[i], digit)]
      ensures reported == old(reported) + Reported(old(sessions)[i], Response(digit))
    {
      hide Sum, Ids, EnvIds, HeldIds, Held, ReportIds, Reports, Queued, Conserved, Counted;
      var s := sessions[i];
      if digit != 2 && digit != 3 {
        Status(i, DeliveryOf(digit));
        Put(i, sessions[i].(state := QUIT));
      } else if s.state == DATA_END {
        Status(i, DeliveryOf(digit));
      }
    }

    // bounce_io with IO_LOWAT after a write. All output is gone then; it comes only while the
    // session writes, so that io_set_read cannot fail.
    method LoWat(i: nat, wrote: Ioev.Wrote, copying: Copying, now: int, len: Length)
      requires Valid() && Progress() && clock <= now && i < |sessions|
      requires Ioev.CanTell(sessions[i].io, Ioev.LOWAT) && Ioev.LowWater(sessions[i].io, wrote)
      modifies this, tree, tree.head, tree.nodes
      ensures forall n :: n in tree.nodes ==> n in old(tree.nodes) || fresh(n)
      ensures Valid() && Progress() && clock == now && added == old(added)
      ensures reported == old(reported) + if copying == ReadError && old(sessions)[i].state == DATA_MESSAGE then Reported(old(sessions)[i], Bad) else []
      ensures Continued(old(sessions), i, copying, len, sessions) && pending == old(pending)
      ensures DrainedIf(|sessions| < |old(sessions)|, pending, nmessage, old(running), old(timer), now, running, timer)
    {
      hide Sum, Ids, EnvIds, HeldIds, Held, ReportIds, Reports, Queued, Conserved, Counted, DrainTo;
      clock := now;
      Later();
      assert Handling(i);
      Put(i, sessions[i].(io := sessions[i].io.(queued := Ioev.Left(sessions[i].io.queued, wrote))));
      if sessions[i].state == DATA_MESSAGE {
        NextPiece(i, copying, now, len);
      } else {
        assert sessions[i].io.queued == 0 && !sessions[i].io.reading;
        Put(i, sessions[i].(io := Ioev.ReadOnly(sessions[i].io)));
      }
    }

    // The case of a message on its way: it goes on, and as output is queued again the mode
    // stays, or the session is freed.
    method NextPiece(i: nat, copying: Copying, now: int, len: Length)
      requires Handling(i) && Progress() && clock == now && sessions[i].state == DATA_MESSAGE && sessions[i].msg.Some?
      requires GoodIo(sessions[i].io.(queued := 1)) && sessions[i].io.writing && sessions[i].io.queued == 0
      modifies this, tree, tree.head, tree.nodes
      ensures forall n :: n in tree.nodes ==> n in old(tree.nodes) || fresh(n)
      ensures Valid() && Progress() && clock == now && added == old(added)
      ensures reported == old(reported) + if copying == ReadError then Reported(old(sessions)[i], Bad) else []
      ensures Continued(old(sessions), i, copying, len, sessions) && pending == old(pending)
      ensures DrainedIf(|sessions| < |old(sessions)|, pending, nmessage, old(running), old(timer), now, running, timer)
    {
      hide Sum, Ids, EnvIds, HeldIds, Held, ReportIds, Reports, Queued, Conserved, Counted, AllReports, DrainTo;
      AllReportsNone();
      var ok := Next(i, now, n => false, copying, len);
      if !ok {
        Free(i, now);
      }
    }

    // A write that leaves more than the mark: nothing is told.
    method Drained(i: nat, wrote: Ioev.Wrote, now: int)
      requires Valid() && Progress() && clock <= now && i < |sessions| && !Ioev.LowWater(sessions[i].io, wrote)
      modifies `clock, `sessions
      ensures Valid() && Progress() && clock == now
      ensures sessions == old(sessions)[i := old(sessions)[i].(io := old(sessions)[i].io.(queued := Ioev.Left(old(sessions)[i].io.queued, wrote)))]
    {
      hide Sum, Ids, EnvIds, HeldIds, Held, ReportIds, Reports, Queued, Conserved, Counted;
      clock := now;
      Later();
      assert Handling(i);
      Put(i, sessions[i].(io := sessions[i].io.(queued := Ioev.Left(sessions[i].io.queued, wrote))));
    }

    // bounce_io with any other event: the connection is lost.
    method IoError(i: nat, now: int)
      requires Valid() && Progress() && clock <= now && i < |sessions|
      modifies this
      ensures Valid() && Progress() && clock == now && added == old(added)
      ensures sessions == old(sessions)[..i] + old(sessions)[i + 1..] && reported == old(reported) + Reported(old(sessions)[i], Bad)
      ensures pending == old(pending) && (running, timer) == DrainTo(pending, nmessage, old(running) - 1, old(timer), now)
    {
      hide Sum, Ids, EnvIds, HeldIds, Held, ReportIds, Reports, Queued, Conserved, Counted, DrainTo;
      clock := now;
      Later();
      GiveUp(i, now);
    }

    // A session ends before its time.
    method GiveUp(i: nat, now: int)
      requires i < |sessions| && Handling(i) && clock == now
      modifies `sessions, `running, `requested, `timer, `reported, `nmessage
      ensures Valid() && Progress()
      ensures sessions == old(sessions)[..i] + old(sessions)[i + 1..] && reported == old(reported) + Reported(old(sessions)[i], Bad)
      ensures (running, timer) == DrainTo(pending, nmessage, old(running) - 1, old(timer), now)
    {
      hide Handling, Reports, DrainTo, Valid, Progress;
      Status(i, TEMPFAIL);
      Free(i, now);
    }

    ghost function Snap(): Snapshot
      reads this
    {
      Snapshot(pending, sessions, nmessage, running, timer, reported)
    }

    method Handle(e: Event, now: int)
      requires Valid() && Progress() && clock <= now && CanOccur(sessions, running, timer, e, now)
      modifies this, tree, tree.head, tree.nodes
      ensures forall n :: n in tree.nodes ==> n in old(tree.nodes) || fresh(n)
      ensures Valid() && Progress() && clock == now && Follows(old(Snap()), e, now, Snap())
      ensures added == old(added) + if e.Added? then multiset{e.evpid} else multiset{}
    {
      hide Conserved, Queued, Progress, Held, Joins, Dispatched, DrainTo;
      match e
      case Added(evpid, loaded) => Add(evpid, loaded, now);
      case Socket(ok) => Fd(ok, now);
      case TimerDue => Timeout(now);
      case Io(i, h) => Dispatch(i, h, now);
    }

    // io_dispatch for the io of a session. In half duplex it calls bounce_io at most once.
    method Dispatch(i: nat, h: IoEvent, now: int)
      requires Valid() && Progress() && clock <= now && CanOccur(sessions, running, timer, Io(i, h), now)
      modifies this, tree, tree.head, tree.nodes
      ensures forall n :: n in tree.nodes ==> n in old(tree.nodes) || fresh(n)
      ensures Valid() && Progress() && clock == now && added == old(added)
      ensures Dispatched(old(Snap()), i, h, now, Snap())
    {
      hide Conserved, Counted, Queued, Progress, Heard, Continued, Reported, HeardPick, DrainTo;
      var io := sessions[i].io;
      assert GoodSession(sessions[i]);
      var told := Ioev.Told(io, h.ev, h.timeout, h.wrote, h.got);
      Ioev.HalfDuplex(io, h.ev, h.timeout, h.wrote, h.got);
      if told == [] {
        Drained(i, if h.ev.write then h.wrote else Ioev.WantWrite, now);
        return;
      }
      Ioev.ToldCanTell(io, h.ev, h.timeout, h.wrote, h.got, told[0]);
      match told[0]
      case DATAIN => DataIn(i, h.input, now, h.opens, h.len);
      case LOWAT => LoWat(i, h.wrote, h.copying, now, h.len);
      case _ => IoError(i, now);
    }

    // Any run of events, each with the time since the one before: those that can occur are
    // handled in turn. Every id that came with an event is accounted for, and each state in
    // the trace follows from the one before.
    static method Run(events: seq<(Event, nat)>, start: int) returns (b: Engine, ghost trace: seq<Snapshot>)
      ensures b.Valid() && b.Progress() && b.added == AddedIds(events)
      ensures IsTrace(start, events, |events|, trace) && trace[|events|] == b.Snap()
    {
      hide Engine.Valid, Engine.Progress, Engine.Snap, IsTrace, Steps, AddedIds, Time;
      b := new Engine(start);
      trace := [b.Snap()];
      var now := start;
      TraceNone(start, events);
      for k := 0 to |events|
        invariant b.Valid() && b.Progress() && b.clock <= now
        invariant fresh(b) && fresh(b.tree) && fresh(b.tree.head) && forall n :: n in b.tree.nodes ==> fresh(n)
        invariant b.added == AddedIds(events[..k]) && now == Time(start, events, k)
        invariant |trace| == k + 1 && trace[k] == b.Snap() && IsTrace(start, events, k, trace)
      {
        var (e, delay) := events[k];
        now := now + delay;
        AddedOne(start, events, k);
        b.Step(e, now);
        TraceOne(start, events, k, trace, b.Snap());
        trace := trace + [b.Snap()];
      }
      assert events[..|events|] == events;
    }

    method Step(e: Event, now: int)
      requires Valid() && Progress() && clock <= now
      modifies this, tree, tree.head, tree.nodes
      ensures forall n :: n in tree.nodes ==> n in old(tree.nodes) || fresh(n)
      ensures Valid() && Progress() && old(clock) <= clock <= now
      ensures added == old(added) + IdOf(e) && Steps(old(Snap()), e, now, Snap())
    {
      hide Conserved, Counted, Queued, Progress, Follows;
      if CanOccur(sessions, running, timer, e, now) {
        Handle(e, now);
      }
    }

    twostate lemma Later()
      requires old(Queued()) && old(clock) <= clock && pending == old(pending) && timer == old(timer)
      requires old(tree.Valid()) ==> tree.Valid() && tree.keys == old(tree.keys)
      ensures Queued()
    {
    }
  }

  function DeliveryOf(digit: nat): Delivery {
    if digit == 2 then OK else if digit == 5 || digit == 6 then PERMFAIL else TEMPFAIL
  }

  // After a response: only that session has changed. A failing response leads to QUIT, any
  // other to the next command; the command is queued, and the session writes.
  ghost predicate Answered(before: seq<Session>, i: nat, digit: nat, len: Length, msg: Option<Message>, after: seq<Session>) {
    && i < |before| == |after| && after[..i] == before[..i] && after[i + 1..] == before[i + 1..]
    && after[i].smtpname == before[i].smtpname && after[i].msg == msg && after[i].io == before[i].io.(reading := false, writing := true, queued := before[i].io.queued + len)
    && if digit != 2 && digit != 3 then after[i].state == CLOSE && after[i].msg.None? else After(before[i], after[i], HiWater)
  }

  // After all output has gone: the next piece of the message is queued, or the session reads;
  // it is gone if the message cannot be read.
  ghost predicate Continued(before: seq<Session>, i: nat, copying: Copying, len: Length, after: seq<Session>) {
    && i < |before|
    && if before[i].state != DATA_MESSAGE then after == before[i := before[i].(io := before[i].io.(reading := true, writing := false, queued := 0))]
       else if copying == ReadError then after == before[..i] + before[i + 1..]
       else after == before[i := before[i].(state := if copying == EndOfFile then DATA_END else DATA_MESSAGE, io := before[i].io.(queued := len))]
  }

  // The reports an input leads to at once for the message the session holds.
  function Reported(s: Session, input: Input): seq<(nat, Delivery)> {
    if s.msg.None? then []
    else
      match input
      case Partial => []
      case TooLong => Reports(s.msg.value.envelopes, TEMPFAIL)
      case Bad => Reports(s.msg.value.envelopes, TEMPFAIL)
      case Response(digit) =>
        if (digit == 2 || digit == 3) && s.state != DATA_END then []
        else Reports(s.msg.value.envelopes, DeliveryOf(digit))
  }

  lemma {:induction false} EmptyIds(m: Message)
    requires m.envelopes == []
    ensures EnvIds(m) == multiset{}
  {
  }

  lemma {:induction false} IdsOne(m: Message)
    ensures Ids([m]) == EnvIds(m)
  {
    assert [m][1..] == [];
    SumNone(EnvIds(m));
  }

  datatype Event = Added(evpid: nat, loaded: Option<Envelope>) | Socket(ok: bool) | TimerDue | Io(i: nat, h: IoEvent)

  // An event of the io of a session: what the event loop, the socket, the peer and the files
  // of the messages have to say to it.
  datatype IoEvent = IoEvent(ev: Ioev.Events, timeout: bool, wrote: Ioev.Wrote, got: Ioev.Got,
                             input: Input, opens: nat -> bool, copying: Copying, len: Length)

  datatype Snapshot = Snapshot(pending: seq<Message>, sessions: seq<Session>, nmessage: int, running: int, timer: Option<int>,
                               reported: seq<(nat, Delivery)>)

  // What an event needs to occur: a socket was asked for, the timer is due, or the io of the
  // session is armed for it.
  predicate CanOccur(sessions: seq<Session>, running: int, timer: Option<int>, e: Event, now: int) {
    match e
    case Added(_, _) => true
    case Socket(_) => running > |sessions|
    case TimerDue => timer.Some? && timer.value <= now
    case Io(i, h) => i < |sessions| && Ioev.Fires(Ioev.WantedBy(sessions[i].io), h.ev, h.timeout)
  }

  // What an event does to everything but the counter of messages, which Counted gives.
  ghost predicate Follows(s: Snapshot, e: Event, now: int, t: Snapshot) {
    match e
    case Added(evpid, loaded) =>
      && t.sessions == s.sessions
      && (if loaded.None? then t.pending == s.pending && t.reported == s.reported + [(evpid, PERMFAIL)] && t.running == s.running && t.timer == s.timer
          else
            && t.reported == s.reported && (t.running, t.timer) == DrainTo(t.pending, t.nmessage, s.running, s.timer, now)
            && Joins(s.pending, t.pending, Key(evpid / 0x1_0000_0000, loaded.value.smtpname, loaded.value.bounce), evpid, now + 1))
    case Socket(ok) =>
      && t.pending == s.pending && t.reported == s.reported
      && t.sessions == s.sessions + (if ok && s.pending != [] then [Session(s.pending[0].key.smtpname, None, EHLO, Ioev.ReadOnly(Ioev.NEW))] else [])
      && DrainedIf(!ok || s.pending == [], t.pending, t.nmessage, s.running, s.timer, now, t.running, t.timer)
    case TimerDue =>
      && t.pending == s.pending && t.sessions == s.sessions && t.reported == s.reported
      && (t.running, t.timer) == DrainTo(t.pending, t.nmessage, s.running, None, now)
    case Io(i, h) => Dispatched(s, i, h, now, t)
  }

  ghost predicate Steps(s: Snapshot, e: Event, now: int, t: Snapshot) {
    if CanOccur(s.sessions, s.running, s.timer, e, now) then Follows(s, e, now, t) else t == s
  }

  ghost predicate Dispatched(s: Snapshot, i: nat, h: IoEvent, now: int, t: Snapshot) {
    && i < |s.sessions|
    && DrainedIf(|t.sessions| < |s.sessions|, t.pending, t.nmessage, s.running, s.timer, now, t.running, t.timer)
    && var ses, told := s.sessions[i], Ioev.Told(s.sessions[i].io, h.ev, h.timeout, h.wrote, h.got);
       if told == []
       then
         && t.sessions == s.sessions[i := ses.(io := ses.io.(queued := if h.ev.write then Ioev.Left(ses.io.queued, h.wrote) else ses.io.queued))]
         && t.pending == s.pending && t.reported == s.reported
       else
         match told[0]
         case DATAIN =>
           var p := HeardPick(ses, h.input, s.pending, now, h.opens);
           && Heard(s.sessions, i, h.input, h.len, p.msg, t.sessions)
           && t.pending == p.rest && t.reported == s.reported + Reported(ses, h.input) + AllReports(p.failed)
         case LOWAT =>
           && Continued(s.sessions, i, h.copying, h.len, t.sessions) && t.pending == s.pending
           && t.reported == s.reported + if h.copying == ReadError && ses.state == DATA_MESSAGE then Reported(ses, Bad) else []
         case _ => t.sessions == s.sessions[..i] + s.sessions[i + 1..] && t.pending == s.pending && t.reported == s.reported + Reported(ses, Bad)
  }

  // After input: nothing happens before it is complete; the session is gone after bad input,
  // or after the answer to QUIT; any other response is answered.
  ghost predicate Heard(before: seq<Session>, i: nat, input: Input, len: Length, msg: Option<Message>, after: seq<Session>) {
    && i < |before|
    && match input
       case Partial => after == before
       case TooLong => after == before[..i] + before[i + 1..]
       case Bad => after == before[..i] + before[i + 1..]
       case Response(digit) =>
         if before[i].state == CLOSE then after == before[..i] + before[i + 1..]
         else Answered(before, i, digit, len, msg, after)
  }

  function IdOf(e: Event): multiset<nat> {
    if e.Added? then multiset{e.evpid} else multiset{}
  }

  function AddedIds(events: seq<(Event, nat)>): multiset<nat> {
    if events == [] then multiset{} else AddedIds(events[..|events| - 1]) + IdOf(events[|events| - 1].0)
  }

  lemma {:induction false} AddedOne(start: int, events: seq<(Event, nat)>, k: nat)
    requires k < |events|
    ensures AddedIds(events[..k + 1]) == AddedIds(events[..k]) + IdOf(events[k].0)
    ensures Time(start, events, k + 1) == Time(start, events, k) + events[k].1
  {
    assert events[..k + 1][..k] == events[..k];
  }

  // States before and after each of the first k events.
  ghost predicate IsTrace(start: int, events: seq<(Event, nat)>, k: nat, trace: seq<Snapshot>) {
    && k <= |events| && |trace| == k + 1 && trace[0] == Snapshot([], [], 0, 0, None, [])
    && forall j :: 0 <= j < k ==> Steps(trace[j], events[j].0, Time(start, events, j + 1), trace[j + 1])
  }

  lemma {:induction false} TraceNone(start: int, events: seq<(Event, nat)>)
    ensures IsTrace(start, events, 0, [Snapshot([], [], 0, 0, None, [])]) && AddedIds(events[..0]) == multiset{} && Time(start, events, 0) == start
  {
  }

  lemma {:induction false} TraceOne(start: int, events: seq<(Event, nat)>, k: nat, trace: seq<Snapshot>, t: Snapshot)
    requires k < |events| && |trace| == k + 1 && IsTrace(start, events, k, trace)
    requires Steps(trace[k], events[k].0, Time(start, events, k + 1), t)
    ensures IsTrace(start, events, k + 1, trace + [t])
  {
    hide Steps, Time;
    var r := trace + [t];
    assert forall j :: 0 <= j <= k ==> r[j] == trace[j];
  }

  // The time at which the first k events have come.
  function Time(start: int, events: seq<(Event, nat)>, k: nat): int
    requires k <= |events|
  {
    if k == 0 then start else Time(start, events, k - 1) + events[k - 1].1
  }

  /*** What reports and states mean ***/

  lemma {:induction false} FailedReports(ms: seq<Message>)
    ensures forall r :: r in AllReports(ms) ==> r.1 == TEMPFAIL
  {
    if ms != [] {
      FailedReports(ms[..|ms| - 1]);
    }
  }

  // What a response means for the envelopes of the message held: accepted with 2 at the end
  // of the data, refused for good with 5 or 6, else for now.
  lemma {:induction false} ResponseReports(s: Session, digit: nat)
    requires s.msg.Some?
    ensures var r, ids := Reported(s, Response(digit)), s.msg.value.envelopes;
            && ((digit == 2 || digit == 3) && s.state != DATA_END ==> r == [])
            && (!((digit == 2 || digit == 3) && s.state != DATA_END) ==>
                  |r| == |ids| && forall i :: 0 <= i < |ids| ==> r[i].0 == ids[i] && (r[i].1 == OK <==> digit == 2) && (r[i].1 == PERMFAIL <==> digit == 5 || digit == 6))
  {
  }

  // An id is reported as delivered only when the session that holds its message gets a 2xx
  // response to the end of the data.
  lemma {:induction false} OkMeansAccepted(s: Snapshot, e: Event, now: int, t: Snapshot, k: nat)
    requires Steps(s, e, now, t) && |s.reported| <= k < |t.reported| && t.reported[k].1 == OK
    ensures e.Io? && e.i < |s.sessions| && s.sessions[e.i].state == DATA_END && e.h.input == Response(2)
    ensures s.sessions[e.i].msg.Some? && t.reported[k].0 in s.sessions[e.i].msg.value.envelopes
    ensures Ioev.DATAIN in Ioev.Told(s.sessions[e.i].io, e.h.ev, e.h.timeout, e.h.wrote, e.h.got)
  {
    hide Joins, Heard, Continued, HeardPick, DrainTo, DrainedIf, AllReports;
    match e
    case Added(_, _) =>
    case Socket(_) =>
    case TimerDue =>
    case Io(i, h) =>
      var ses := s.sessions[i];
      var failed := HeardPick(ses, h.input, s.pending, now, h.opens).failed;
      FailedReports(failed);
      var more := t.reported[|s.reported|..];
      assert t.reported[k] == more[k - |s.reported|];
      if Ioev.Told(ses.io, h.ev, h.timeout, h.wrote, h.got) != [] && Ioev.Told(ses.io, h.ev, h.timeout, h.wrote, h.got)[0] == Ioev.DATAIN {
        Assoc(s.reported, Reported(ses, h.input), AllReports(failed));
        assert more == Reported(ses, h.input) + AllReports(failed);
        OkInReported(ses, h.input, AllReports(failed), k - |s.reported|);
      }
  }

  lemma {:induction false} OkInReported(ses: Session, input: Input, rest: seq<(nat, Delivery)>, k: nat)
    requires k < |Reported(ses, input) + rest| && (Reported(ses, input) + rest)[k].1 == OK && forall r :: r in rest ==> r.1 == TEMPFAIL
    ensures ses.msg.Some? && input == Response(2) && ses.state == DATA_END && (Reported(ses, input) + rest)[k].0 in ses.msg.value.envelopes
  {
  }

  // Over a whole run: every id reported as delivered was in a message whose data had been sent
  // and then accepted.
  ghost predicate Accepted(s: Snapshot, e: Event, id: nat) {
    && e.Io? && e.i < |s.sessions| && s.sessions[e.i].state == DATA_END && e.h.input == Response(2)
    && s.sessions[e.i].msg.Some? && id in s.sessions[e.i].msg.value.envelopes
  }

  lemma {:induction false} DeliveredIsAccepted(start: int, events: seq<(Event, nat)>, n: nat, trace: seq<Snapshot>, k: nat)
    requires n <= |events| && |trace| == n + 1 && IsTrace(start, events, n, trace) && k < |trace[n].reported| && trace[n].reported[k].1 == OK
    ensures exists j :: 0 <= j < n && Accepted(trace[j], events[j].0, trace[n].reported[k].0)
    decreases n
  {
    hide Steps, Accepted, Time;
    if n > 0 {
      var s, e, t := trace[n - 1], events[n - 1].0, trace[n];
      assert Steps(s, e, Time(start, events, n), t);
      OnlyMoreReports(s, e, Time(start, events, n), t);
      if k < |s.reported| {
        assert trace[..n][n - 1] == s;
        DeliveredIsAccepted(start, events, n - 1, trace[..n], k);
        var j :| 0 <= j < n - 1 && Accepted(trace[..n][j], events[j].0, t.reported[k].0);
        assert trace[j] == trace[..n][j];
      } else {
        NewlyAccepted(s, e, Time(start, events, n), t, k);
      }
    }
  }

  lemma {:induction false} NewlyAccepted(s: Snapshot, e: Event, now: int, t: Snapshot, k: nat)
    requires Steps(s, e, now, t) && |s.reported| <= k < |t.reported| && t.reported[k].1 == OK
    ensures Accepted(s, e, t.reported[k].0)
  {
    hide Steps;
    OkMeansAccepted(s, e, now, t, k);
  }

  lemma {:induction false} OnlyMoreReports(s: Snapshot, e: Event, now: int, t: Snapshot)
    requires Steps(s, e, now, t)
    ensures s.reported <= t.reported
  {
    hide Joins, Heard, Continued, HeardPick, DrainTo, DrainedIf, AllReports, Reported;
  }

  // The conversation of a session whose commands all succeed, and what ends it.
  lemma {:induction false} Conversation(s: Session, t: Session)
    ensures After(s, t, HiWater) ==>
              && (s.state == EHLO ==> t.state == MAIL) && (s.state == MAIL ==> t.state == if t.msg.Some? then RCPT else CLOSE) && (s.state == RCPT ==> t.state == DATA)
              && (s.state == DATA ==> t.state == DATA_NOTICE) && (s.state == DATA_NOTICE ==> t.state == DATA_MESSAGE)
              && (s.state == DATA_END ==> t.state == if t.msg.Some? then RCPT else CLOSE) && (s.state == QUIT ==> t.state == CLOSE)
    ensures s.state == DATA_MESSAGE && After(s, t, EndOfFile) ==> t.state == DATA_END && t.msg == s.msg
    ensures forall digit: nat :: digit != 2 && digit != 3 ==> Noted(s, digit).state == QUIT && Noted(s, digit).msg == None
    ensures s.state != DATA_END ==> Noted(s, 2) == s
  {
  }

  // bounce_drain asks for sockets only for messages that are due and only up to two; if one is
  // due it asks for as many as there are messages, up to two; otherwise it sets the timer.
  lemma {:induction false} DrainMeaning(pending: seq<Message>, nmessage: int, running: int, timer: Option<int>, now: int)
    ensures var (r, t) := DrainTo(pending, nmessage, running, timer, now);
            && r >= running && (r > running ==> r <= 2 && r <= nmessage && pending != [] && pending[0].timeout <= now)
            && (pending != [] && pending[0].timeout <= now ==> r >= 2 || r >= nmessage)
            && (pending != [] && pending[0].timeout > now && running < 2 && running < nmessage ==> t.Some?)
            && (t != timer ==> timer.None? && pending != [] && t == Some(pending[0].timeout) && pending[0].timeout > now)
  {
  }

  // An id that was added once is in one place: a waiting message, a held message or a report.
  lemma {:induction false} InOnePlace(b: Engine, id: nat)
    requires b.Valid() && b.added[id] == 1
    ensures Ids(b.pending)[id] + HeldIds(b.sessions)[id] + ReportIds(b.reported)[id] == 1
  {
    hide Ids, HeldIds, ReportIds;
  }

  // Nothing waits in vain: while messages wait, a socket is coming, a session is at work and
  // armed for input or output, or the timer goes off by the time the first message is due.
  lemma {:induction false} NotStuck(b: Engine)
    requires b.Valid() && b.Progress() && b.pending != []
    ensures b.requested > 0 || b.sessions != [] || (b.timer.Some? && b.timer.value <= b.pending[0].timeout)
    ensures forall i :: 0 <= i < |b.sessions| ==> Ioev.WantedBy(b.sessions[i].io) != Ioev.NONE
  {
    hide Ids, HeldIds, ReportIds, Held;
  }

  // A session for which bounce_next may be called: not closing, and with a message exactly
  // while one is on its way.
  predicate Ready(s: Session) {
    s.state != CLOSE && (s.msg.Some? <==> s.state in {RCPT, DATA, DATA_NOTICE, DATA_MESSAGE})
  }

  // The order of the commands.
  predicate After(s: Session, t: Session, copying: Copying) {
    match s.state
    case EHLO => t.state == MAIL && t.msg == s.msg
    case MAIL => t.state == if t.msg.Some? then RCPT else CLOSE
    case RCPT => t.state == DATA && t.msg == s.msg
    case DATA => t.state == DATA_NOTICE && t.msg == s.msg
    case DATA_NOTICE => t.state == DATA_MESSAGE && t.msg == s.msg
    case DATA_MESSAGE => t.state == (if copying == EndOfFile then DATA_END else DATA_MESSAGE) && t.msg == s.msg
    case DATA_END => t.state == if t.msg.Some? then RCPT else CLOSE
    case QUIT => t.state == CLOSE && t.msg == s.msg
    case CLOSE => false
  }

  // The ids of waiting messages, held messages and reports together.
  ghost function Sum(p: multiset<nat>, h: multiset<nat>, r: multiset<nat>): multiset<nat> {
    p + h + r
  }

  lemma {:induction false} Moved(p: multiset<nat>, m: multiset<nat>, h: multiset<nat>, r: multiset<nat>)
    ensures Sum(p + m, h, r) == Sum(p, h, r) + m && Sum(p, h + m, r) == Sum(p, h, r) + m && Sum(p, h, r + m) == Sum(p, h, r) + m
  {
  }

  // The session after a response has been noted.
  function Noted(s: Session, digit: nat): Session {
    s.(state := if digit != 2 && digit != 3 then QUIT else s.state,
       msg := if (digit != 2 && digit != 3) || s.state == DATA_END then None else s.msg)
  }

  // What bounce_next takes: a message if it is time for one, else nothing new.
  function Taken(s: Session, pending: seq<Message>, now: int, opens: nat -> bool): Pick {
    if s.state == MAIL || s.state == DATA_END then PickFrom(pending, s.smtpname, now, opens, 0) else Pick(s.msg, pending, [])
  }

  function HeardPick(s: Session, input: Input, pending: seq<Message>, now: int, opens: nat -> bool): Pick {
    if input.Response? && s.state != CLOSE then Taken(Noted(s, input.digit), pending, now, opens) else Pick(None, pending, [])
  }

  // Sessions running or asked for, and the timer, after bounce_drain: as many as there are
  // messages, up to the limit, if the first is due; otherwise the timer is set.
  function DrainTo(pending: seq<Message>, nmessage: int, running: int, timer: Option<int>, now: int): (int, Option<int>) {
    if running >= Min(BOUNCE_MAXRUN, nmessage) || pending == [] then (running, timer)
    else if pending[0].timeout > now then (running, if timer.None? then Some(pending[0].timeout) else timer)
    else (Min(BOUNCE_MAXRUN, nmessage), timer)
  }

  // If a session has gone, its place is free and the engine drained.
  ghost predicate DrainedIf(gone: bool, pending: seq<Message>, nmessage: int, running: int, timer: Option<int>, now: int,
                            running': int, timer': Option<int>) {
    (running', timer') == if gone then DrainTo(pending, nmessage, running - 1, timer, now) else (running, timer)
  }

  lemma {:induction false} ReportNone(rs: seq<(nat, Delivery)>, ids: seq<nat>, d: Delivery)
    ensures rs == rs + Reports(ids[..0], d) && ReportIds(rs) == ReportIds(rs) + multiset(ids[..0])
  {
    assert ids[..0] == [] && Reports([], d) == [];
  }

  lemma {:induction false} ReportOne(rs0: seq<(nat, Delivery)>, ids: seq<nat>, n: nat, d: Delivery, rs: seq<(nat, Delivery)>)
    requires n < |ids| && rs == rs0 + Reports(ids[..n], d) && ReportIds(rs) == ReportIds(rs0) + multiset(ids[..n])
    ensures rs + [(ids[n], d)] == rs0 + Reports(ids[..n + 1], d)
    ensures ReportIds(rs + [(ids[n], d)]) == ReportIds(rs0) + multiset(ids[..n + 1])
  {
    hide ReportIds, Reports;
    ReportsStep(ids, n, d);
    Assoc(rs0, Reports(ids[..n], d), [(ids[n], d)]);
    ReportLast(rs, (ids[n], d));
    assert ids[..n + 1] == ids[..n] + [ids[n]];
    SumAssoc(ReportIds(rs0), multiset(ids[..n]), multiset{ids[n]});
  }

  lemma {:induction false} ReportsStep(ids: seq<nat>, n: nat, d: Delivery)
    requires n < |ids|
    ensures Reports(ids[..n], d) + [(ids[n], d)] == Reports(ids[..n + 1], d)
  {
  }

  lemma {:induction false} ReportLast(rs: seq<(nat, Delivery)>, r: (nat, Delivery))
    ensures ReportIds(rs + [r]) == ReportIds(rs) + multiset{r.0}
  {
    assert (rs + [r])[..|rs|] == rs;
  }

}
