/** Event framing of usr.sbin/smtpd/ioev.c for connected ios without TLS: whatever callbacks
    do, including freeing the io they are called for, an io outside any frame is armed for
    exactly the events it wants. */
module Ioev {

  // EV_READ and EV_WRITE
  datatype Events = Events(read: bool, write: bool)

  const NONE := Events(false, false)

  datatype Notice = DATAIN | LOWAT | DISCONNECTED | TIMEOUT | ERROR

  // What decides which events an io wants and what it is told: duplex mode, pauses, the
  // amount of output queued, and the mark below which more is asked for.
  datatype IoState = IoState(reading: bool, writing: bool, pausedIn: bool, pausedOut: bool, queued: nat, lowat: nat)

  const NEW := IoState(false, false, false, false, 0, 0)

  // Input unless the mode is writing only, output unless it is reading only and if something
  // is queued.
  function WantedBy(v: IoState): Events {
    Events((v.reading || !v.writing) && !v.pausedIn, (v.writing || !v.reading) && !v.pausedOut && v.queued > 0)
  }

  // An event of an io that is armed for w: one of these, or a timeout if there are any.
  predicate Fires(w: Events, ev: Events, timeout: bool) {
    (ev.read ==> w.read) && (ev.write ==> w.write) && (timeout ==> w != NONE)
  }

  // The mode after io_set_read and io_set_write, which end the program otherwise.
  function ReadOnly(v: IoState): IoState
    requires !v.reading
  {
    v.(reading := true, writing := false)
  }

  function WriteOnly(v: IoState): IoState
    requires !v.writing
  {
    v.(reading := false, writing := true)
  }

  // What iobuf_write and iobuf_read say.
  datatype Wrote = Wrote(n: nat) | WantWrite | WriteClosed | WriteError

  datatype Got = Got(n: nat) | ReadClosed | ReadError

  // Output left after a write, of at most what was queued.
  function Left(queued: nat, wrote: Wrote): nat {
    if !wrote.Wrote? then queued else if wrote.n < queued then queued - wrote.n else 0
  }

  // The queue goes from above the mark to the mark or below.
  predicate LowWater(v: IoState, wrote: Wrote) {
    wrote.Wrote? && v.queued > v.lowat && Left(v.queued, wrote) <= v.lowat
  }

  // What the callback of an io is told about one event, in order.
  function Told(v: IoState, ev: Events, timeout: bool, wrote: Wrote, got: Got): seq<Notice> {
    if timeout then [TIMEOUT]
    else if ev.write && wrote.WriteClosed? then [DISCONNECTED]
    else if ev.write && wrote.WriteError? then [ERROR]
    else (if ev.write && LowWater(v, wrote) then [LOWAT] else []) + if ev.read then ToldOfInput(got) else []
  }

  function ToldOfInput(got: Got): seq<Notice> {
    match got
    case Got(n) => if n > 0 then [DATAIN] else []
    case ReadClosed => [DISCONNECTED]
    case ReadError => [ERROR]
  }

  // Input is announced only to an io that wants input, room for output only to one that
  // wants output and has more queued than its mark.
  predicate CanTell(v: IoState, n: Notice) {
    match n
    case DATAIN => WantedBy(v).read
    case LOWAT => WantedBy(v).write && v.queued > v.lowat
    case _ => WantedBy(v) != NONE
  }

  // An io hears about an event it wants exactly what it can be told.
  lemma {:induction false} ToldIsCanTell(v: IoState, n: Notice)
    ensures (exists ev, timeout, wrote, got :: Fires(WantedBy(v), ev, timeout) && n in Told(v, ev, timeout, wrote, got)) <==> CanTell(v, n)
  {
    if CanTell(v, n) {
      var w := WantedBy(v);
      assert Fires(w, w, true) && Fires(w, w, false);
      match n {
        case DATAIN => assert Fires(w, Events(true, false), false) && n in Told(v, Events(true, false), false, WantWrite, Got(1));
        case LOWAT => assert Fires(w, Events(false, true), false) && n in Told(v, Events(false, true), false, Wrote(v.queued), Got(0));
        case TIMEOUT => assert n in Told(v, w, true, WantWrite, Got(0));
        case DISCONNECTED => assert n in Told(v, w, false, WriteClosed, ReadClosed);
        case ERROR => assert n in Told(v, w, false, WriteError, ReadError);
      }
    }
  }

  lemma {:induction false} ToldCanTell(v: IoState, ev: Events, timeout: bool, wrote: Wrote, got: Got, n: Notice)
    requires Fires(WantedBy(v), ev, timeout) && n in Told(v, ev, timeout, wrote, got)
    ensures CanTell(v, n) && (n == LOWAT ==> LowWater(v, wrote))
  {
    ToldIsCanTell(v, n);
  }

  // In half duplex one event brings at most one notice: input only while reading, room for
  // output only while writing, with the output down to the mark.
  lemma {:induction false} HalfDuplex(v: IoState, ev: Events, timeout: bool, wrote: Wrote, got: Got)
    requires v.reading != v.writing && Fires(WantedBy(v), ev, timeout)
    ensures |Told(v, ev, timeout, wrote, got)| <= 1
    ensures DATAIN in Told(v, ev, timeout, wrote, got) ==> v.reading && !ev.write
    ensures LOWAT in Told(v, ev, timeout, wrote, got) ==> v.writing && ev.write && Left(v.queued, wrote) <= v.lowat < v.queued
  {
  }

  /*** What an io hears, and when ***/

  // Input is heard of exactly by an io that may read and is not paused for input: if there is
  // some and the io is ready for it, unless the write before it fails.
  lemma {:induction false} HearsInput(v: IoState, ev: Events, wrote: Wrote, got: Got)
    requires Fires(WantedBy(v), ev, false)
    ensures DATAIN in Told(v, ev, false, wrote, got) <==>
              ev.read && got.Got? && got.n > 0 && !(ev.write && (wrote.WriteClosed? || wrote.WriteError?))
    ensures v.pausedIn || (v.writing && !v.reading) ==> !ev.read
    ensures !v.pausedIn && (v.reading || !v.writing) ==> Fires(WantedBy(v), Events(true, false), false)
  {
  }

  // Room is heard of exactly when a write takes the queue from above the mark to the mark or
  // below, by an io that may write, is not paused for output and has something queued.
  lemma {:induction false} HearsRoom(v: IoState, ev: Events, wrote: Wrote, got: Got)
    requires Fires(WantedBy(v), ev, false)
    ensures LOWAT in Told(v, ev, false, wrote, got) <==>
              ev.write && wrote.Wrote? && v.lowat < v.queued <= v.lowat + wrote.n
    ensures v.pausedOut || (v.reading && !v.writing) || v.queued == 0 ==> !ev.write
    ensures !v.pausedOut && (v.writing || !v.reading) && v.queued > 0 ==> Fires(WantedBy(v), Events(false, true), false)
  {
  }

  // A closed or failing connection is heard of at once, and nothing after it.
  lemma {:induction false} HearsEnd(v: IoState, ev: Events, wrote: Wrote, got: Got)
    ensures ev.write && wrote.WriteClosed? ==> Told(v, ev, false, wrote, got) == [DISCONNECTED]
    ensures ev.write && wrote.WriteError? ==> Told(v, ev, false, wrote, got) == [ERROR]
    ensures ev.read && !ev.write && got.ReadClosed? ==> Told(v, ev, false, wrote, got) == [DISCONNECTED]
    ensures ev.read && !ev.write && got.ReadError? ==> Told(v, ev, false, wrote, got) == [ERROR]
    ensures Told(v, ev, true, wrote, got) == [TIMEOUT]
  {
  }

  // struct io, the fields that decide about events. armed is the event registered with the
  // event loop, which is gone once it has fired.
  class Io {
    var reading: bool
    var writing: bool
    var pausedIn: bool
    var pausedOut: bool
    var reset: bool
    var held: bool
    var queued: nat
    var lowat: nat
    var armed: Events

    // io_new and io_set_fd
    constructor ()
      ensures !held && armed == Wanted() && State() == NEW
    {
      reading, writing, pausedIn, pausedOut, held, queued, lowat := false, false, false, false, false, 0, 0;
      reset, armed := true, Events(true, false);
    }

    function State(): IoState
      reads this
    {
      IoState(reading, writing, pausedIn, pausedOut, queued, lowat)
    }

    function Wanted(): Events
      reads this
    {
      WantedBy(State())
    }

    // io_reload and io_reset: nothing happens while the io is held.
    method Reload()
      modifies `armed, `reset
      ensures held ==> armed == old(armed) && reset == old(reset)
      ensures !held ==> armed == Wanted() && reset
      ensures !held ==> (armed.read <==> !pausedIn && (reading || !writing)) && (armed.write <==> !pausedOut && (writing || !reading) && queued > 0)
    {
      if held { return; }
      var events := Events(false, false);
      if !(writing && !reading) && !pausedIn {
        events := events.(read := true);
      }
      if !(reading && !writing) && !pausedOut && queued > 0 {
        events := events.(write := true);
      }
      reset := true;
      armed := NONE;
      if events == NONE { return; }
      armed := events;
    }

    // io_pause, io_resume
    method Pause(input: bool, output: bool)
      modifies `pausedIn, `pausedOut, `armed, `reset
      ensures pausedIn == (old(pausedIn) || input) && pausedOut == (old(pausedOut) || output)
      ensures if held then armed == old(armed) && reset == old(reset) else armed == Wanted()
    {
      pausedIn, pausedOut := pausedIn || input, pausedOut || output;
      Reload();
    }

    method Resume(input: bool, output: bool)
      modifies `pausedIn, `pausedOut, `armed, `reset
      ensures pausedIn == (old(pausedIn) && !input) && pausedOut == (old(pausedOut) && !output)
      ensures if held then armed == old(armed) && reset == old(reset) else armed == Wanted()
    {
      pausedIn, pausedOut := pausedIn && !input, pausedOut && !output;
      Reload();
    }

    // io_set_read, which ends the program if the io is already reading, and io_set_write
    method SetRead()
      requires !reading
      modifies `reading, `writing, `armed, `reset
      ensures State() == ReadOnly(old(State()))
      ensures if held then armed == old(armed) && reset == old(reset) else armed == Wanted()
    {
      reading, writing := true, false;
      Reload();
    }

    method SetWrite()
      requires !writing
      modifies `reading, `writing, `armed, `reset
      ensures State() == WriteOnly(old(State()))
      ensures if held then armed == old(armed) && reset == old(reset) else armed == Wanted()
    {
      reading, writing := false, true;
      Reload();
    }

    // io_set_lowat
    method SetLowat(n: nat)
      modifies `lowat
      ensures lowat == n && Wanted() == old(Wanted())
    {
      lowat := n;
    }

    // io_write of n bytes
    method Queue(n: nat)
      modifies `queued, `armed, `reset
      ensures queued == old(queued) + n
      ensures if held then armed == old(armed) && reset == old(reset) else armed == Wanted()
    {
      queued := queued + n;
      Reload();
    }

    // Any of these calls.
    method Change(c: Call)
      requires !c.Create? && !c.Free?
      modifies this
      ensures State() == Changed(c, old(State())) && held == old(held)
      ensures held ==> armed == old(armed) && reset == old(reset)
      ensures !held && old(armed == Wanted()) ==> armed == Wanted()
    {
      hide WantedBy;
      match c
      case Pause(_, input, output) => Pause(input, output);
      case Resume(_, input, output) => Resume(input, output);
      case SetRead(_) => if !reading { SetRead(); }
      case SetWrite(_) => if !writing { SetWrite(); }
      case Queue(_, n) => Queue(n);
      case SetLowat(_, n) => SetLowat(n);
    }
  }

  // What a callback, or any other code, may do with an io.
  datatype Call = Pause(io: Io, input: bool, output: bool) | Resume(io: Io, input: bool, output: bool)
                | SetRead(io: Io) | SetWrite(io: Io) | Queue(io: Io, n: nat) | SetLowat(io: Io, n: nat) | Free(io: Io) | Create

  // An io after a call for it that is not Free; the mode changes only if that is allowed.
  function Changed(c: Call, v: IoState): IoState
    requires !c.Create?
  {
    match c
    case Pause(_, input, output) => v.(pausedIn := v.pausedIn || input, pausedOut := v.pausedOut || output)
    case Resume(_, input, output) => v.(pausedIn := v.pausedIn && !input, pausedOut := v.pausedOut && !output)
    case SetRead(_) => if v.reading then v else ReadOnly(v)
    case SetWrite(_) => if v.writing then v else WriteOnly(v)
    case Queue(_, n) => v.(queued := v.queued + n)
    case SetLowat(_, n) => v.(lowat := n)
    case Free(_) => v
  }

  // What the calls are for, said by the events an io wants afterwards.
  lemma {:induction false} CallsAndEvents(io: Io, v: IoState, n: nat)
    ensures WantedBy(Changed(Pause(io, true, true), v)) == NONE
    ensures WantedBy(Changed(Pause(io, true, false), v)) == Events(false, WantedBy(v).write)
    ensures WantedBy(Changed(Pause(io, false, true), v)) == Events(WantedBy(v).read, false)
    ensures WantedBy(Changed(Resume(io, true, true), Changed(Pause(io, true, true), v))) == WantedBy(v.(pausedIn := false, pausedOut := false))
    ensures v.reading || !v.writing ==> WantedBy(Changed(Resume(io, true, false), v)).read
    ensures (v.writing || !v.reading) && v.queued > 0 ==> WantedBy(Changed(Resume(io, false, true), v)).write
    ensures WantedBy(Changed(SetRead(io), v.(reading := false, writing := true))) == Events(!v.pausedIn, false)
    ensures WantedBy(Changed(SetWrite(io), v.(reading := true, writing := false))) == Events(false, !v.pausedOut && v.queued > 0)
    ensures n > 0 && !v.pausedOut && (v.writing || !v.reading) ==> WantedBy(Changed(Queue(io, n), v)).write
    ensures forall wrote :: LowWater(Changed(SetLowat(io, n), v), wrote) <==> wrote.Wrote? && n < v.queued <= n + wrote.n
  {
  }

  // An io after a sequence of calls, which may be for other ios too.
  function AfterCalls(v: IoState, io: Io, calls: seq<Call>): IoState {
    if calls == [] then v
    else
      var w, c := AfterCalls(v, io, calls[..|calls| - 1]), calls[|calls| - 1];
      if !c.Create? && c.io == io then Changed(c, w) else w
  }

  lemma {:induction false} AfterCallsConcat(v: IoState, io: Io, a: seq<Call>, b: seq<Call>)
    ensures AfterCalls(v, io, a + b) == AfterCalls(AfterCalls(v, io, a), io, b)
  {
    hide Changed;
    if b == [] {
      assert a + b == a;
    } else {
      assert (a + b)[..|a + b| - 1] == a + b[..|b| - 1];
      AfterCallsConcat(v, io, a, b[..|b| - 1]);
    }
  }

  // Everything the callbacks do that are told these notices.
  function CallsOf(script: Notice -> seq<Call>, told: seq<Notice>): seq<Call> {
    if told == [] then [] else CallsOf(script, told[..|told| - 1]) + script(told[|told| - 1])
  }

  lemma {:induction false} CallsOfNone(script: Notice -> seq<Call>)
    ensures CallsOf(script, []) == []
  {
  }

  lemma {:induction false} CallsOfOne(script: Notice -> seq<Call>, n: Notice)
    ensures CallsOf(script, [n]) == script(n)
  {
    assert [n][..0] == [];
  }

  lemma {:induction false} CallsOfConcat(script: Notice -> seq<Call>, a: seq<Notice>, b: seq<Notice>)
    ensures CallsOf(script, a + b) == CallsOf(script, a) + CallsOf(script, b)
  {
    if b == [] {
      assert a + b == a;
    } else {
      assert (a + b)[..|a + b| - 1] == a + b[..|b| - 1];
      CallsOfConcat(script, a, b[..|b| - 1]);
    }
  }

  function Creations(calls: seq<Call>): nat {
    if calls == [] then 0 else Creations(calls[..|calls| - 1]) + if calls[|calls| - 1].Create? then 1 else 0
  }

  lemma {:induction false} CreationsConcat(a: seq<Call>, b: seq<Call>)
    ensures Creations(a + b) == Creations(a) + Creations(b)
  {
    if b == [] {
      assert a + b == a;
    } else {
      assert (a + b)[..|a + b| - 1] == a + b[..|b| - 1];
      CreationsConcat(a, b[..|b| - 1]);
    }
  }

  // Live ios before and after calls: those that are freed are gone, the others are as the
  // calls leave them, and there are as many new ones, untouched, as are created.
  ghost predicate Becomes(m: map<Io, IoState>, calls: seq<Call>, m': map<Io, IoState>) {
    Changes(m, calls, m') && Gained(m.Keys, m'.Keys, Creations(calls))
  }

  ghost predicate Changes(m: map<Io, IoState>, calls: seq<Call>, m': map<Io, IoState>) {
    && (forall io :: io in m ==> (io in m' <==> Free(io) !in calls))
    && (forall io :: io in m && io in m' ==> m'[io] == AfterCalls(m[io], io, calls))
    && (forall io :: io in m' && io !in m ==> m'[io] == NEW)
  }

  ghost predicate Gained(before: set<Io>, after: set<Io>, n: nat) {
    |after - before| == n
  }

  lemma {:induction false} GainedNone(before: set<Io>, after: set<Io>)
    requires after <= before
    ensures Gained(before, after, 0)
  {
    assert after - before == {};
  }

  lemma {:induction false} GainedOne(before: set<Io>, after: set<Io>)
    requires exists io :: io in after && io !in before && after == before + {io}
    ensures Gained(before, after, 1)
  {
    var io :| io in after && io !in before && after == before + {io};
    assert after - before == {io};
  }

  lemma {:induction false} GainedBoth(a: set<Io>, b: set<Io>, c: set<Io>, m: nat, n: nat)
    requires Gained(a, b, m) && Gained(b, c, n) && b - a <= c && a * c <= b
    ensures Gained(a, c, m + n)
  {
    assert c - a == (b - a) + (c - b);
  }

  // An event for output shortens the queue of the io before anything is told.
  ghost function Shortened(m: map<Io, IoState>, io: Io, ev: Events, timeout: bool, wrote: Wrote): map<Io, IoState> {
    if io in m && ev.write && !timeout then m[io := m[io].(queued := Left(m[io].queued, wrote))] else m
  }

  lemma {:induction false} AfterOne(v: IoState, c: Call)
    ensures forall io :: AfterCalls(v, io, [c]) == if !c.Create? && c.io == io then Changed(c, v) else v
    ensures Creations([c]) == if c.Create? then 1 else 0
  {
    hide Changed;
    assert [c][..0] == [];
  }

  lemma {:induction false} BecomesSame(m: map<Io, IoState>)
    ensures Becomes(m, [], m)
  {
    GainedNone(m.Keys, m.Keys);
  }

  ghost predicate Names(calls: seq<Call>, io: Io) {
    exists c :: c in calls && !c.Create? && c.io == io
  }

  lemma {:induction false} Unnamed(v: IoState, io: Io, calls: seq<Call>)
    requires !Names(calls, io)
    ensures AfterCalls(v, io, calls) == v && Free(io) !in calls
  {
    if calls != [] {
      assert calls[|calls| - 1] in calls;
      Unnamed(v, io, calls[..|calls| - 1]);
    }
  }

  // No call of b is for an io that is in m1 only.
  ghost predicate NamesOld(m: map<Io, IoState>, m1: map<Io, IoState>, b: seq<Call>) {
    forall io :: io in m1 && io !in m ==> !Names(b, io)
  }

  lemma {:induction false} BecomesBoth(m: map<Io, IoState>, a: seq<Call>, m1: map<Io, IoState>, b: seq<Call>, m2: map<Io, IoState>)
    requires Becomes(m, a, m1) && Becomes(m1, b, m2) && NamesOld(m, m1, b) && m.Keys * m2.Keys <= m1.Keys
    ensures Becomes(m, a + b, m2)
  {
    hide Changes, Gained, Creations, NamesOld;
    ChangesBoth(m, a, m1, b, m2);
    CreationsConcat(a, b);
    GainedBoth(m.Keys, m1.Keys, m2.Keys, Creations(a), Creations(b));
  }

  lemma {:induction false} ChangesBoth(m: map<Io, IoState>, a: seq<Call>, m1: map<Io, IoState>, b: seq<Call>, m2: map<Io, IoState>)
    requires Changes(m, a, m1) && Changes(m1, b, m2) && NamesOld(m, m1, b) && m.Keys * m2.Keys <= m1.Keys
    ensures Changes(m, a + b, m2) && m1.Keys - m.Keys <= m2.Keys
  {
    hide AfterCalls, Names;
    assert forall io :: io in m && io in m2 ==> io in m1 by {
      assert forall io :: io in m && io in m2 ==> io in m.Keys * m2.Keys;
    }
    forall io | io in m && io in m2
      ensures m2[io] == AfterCalls(m[io], io, a + b)
    {
      AfterCallsConcat(m[io], io, a, b);
    }
    forall io | io in m1 && io !in m
      ensures io in m2 && m2[io] == NEW
    {
      Unnamed(NEW, io, b);
    }
  }

  datatype Step = Outside(call: Call)
                | Event(io: Io, ev: Events, timeout: bool, wrote: Wrote, got: Got, script: Notice -> seq<Call>)

  class System {
    var current: Io?
    var frame: nat
    var ios: set<Io>

    // An io is held exactly while its frame is open; any other io is armed as it wants.
    ghost predicate Valid()
      reads this, ios
    {
      && (current != null ==> current in ios && !current.reset)
      && forall io :: io in ios ==> (io.held <==> io == current) && (io != current ==> io.armed == io.Wanted())
    }

    constructor ()
      ensures Valid() && current == null && ios == {}
    {
      current, frame, ios := null, 0, {};
    }

    // Every io reads only or writes only.
    ghost predicate HalfDuplexOnly()
      reads this, ios
    {
      forall io :: io in ios ==> io.reading != io.writing
    }

    // One call. SetRead and SetWrite end the program unless the mode allows them.
    method Do(c: Call)
      requires Valid()
      modifies this, ios
      ensures Valid() && frame == old(frame) && current in {old(current), null} && (current != old(current) ==> c.Free? && c.io == old(current))
      ensures forall io :: io in ios ==> io in old(ios) || fresh(io)
      ensures forall io :: io in old(ios) ==> (io in ios <==> c != Free(io))
      ensures forall io :: io in old(ios) && io in ios ==> io.State() == if !c.Create? && c.io == io then Changed(c, old(io.State())) else old(io.State())
      ensures c.Create? ==> exists io :: io in ios && io !in old(ios) && ios == old(ios) + {io} && io.State() == NEW
      ensures !c.Create? ==> ios <= old(ios)
      ensures old(HalfDuplexOnly()) && !c.Create? ==> HalfDuplexOnly()
    {
      if c.Create? {
        var io := new Io();
        ios := ios + {io};
        return;
      }
      var io := c.io;
      if io !in ios { return; }
      if c.Free? {
        if io == current { current := null; }
        ios := ios - {io};
        return;
      }
      io.Change(c);
    }

    // The live ios with their states.
    ghost function Snap(): map<Io, IoState>
      reads this, ios
    {
      map io | io in ios :: io.State()
    }

    // One call, said about all live ios.
    method DoOne(c: Call)
      requires Valid()
      modifies this, ios
      ensures Valid() && frame == old(frame) && current in {old(current), null}
      ensures current != old(current) <==> old(current) != null && c == Free(old(current))
      ensures current != old(current) ==> old(current) !in ios
      ensures forall io :: io in ios ==> io in old(ios) || fresh(io)
      ensures Called(old(Snap()), c, Snap())
      ensures old(HalfDuplexOnly()) && !c.Create? ==> HalfDuplexOnly()
    {
      hide WantedBy, Changed, Io.State, HalfDuplexOnly;
      ghost var m := Snap();
      Do(c);
      if c.Create? {
        ghost var io :| io in ios && io !in old(ios) && ios == old(ios) + {io} && io.State() == NEW;
        assert io in Snap() && io !in m && Snap() == m[io := NEW];
      } else {
        assert Snap() == if c.io !in m then m else if c.Free? then m - {c.io} else m[c.io := Changed(c, m[c.io])];
      }
    }

    // The callback of an io: any sequence of calls.
    method Callback(calls: seq<Call>)
      requires Valid()
      modifies this, ios
      ensures Valid() && frame == old(frame) && current in {old(current), null}
      ensures forall io :: io in ios ==> io in old(ios) || fresh(io)
      ensures Becomes(old(Snap()), calls, Snap())
      ensures current != old(current) <==> old(current) != null && Free(old(current)) in calls
      ensures current != old(current) ==> old(current) !in ios
      ensures old(HalfDuplexOnly()) && Create !in calls ==> HalfDuplexOnly()
    {
      hide Becomes, HalfDuplexOnly;
      ghost var start := ios;
      BecomesSame(Snap());
      for k := 0 to |calls|
        invariant Valid() && frame == old(frame) && current in {old(current), null}
        invariant forall io :: io in ios ==> io in start || fresh(io)
        invariant Becomes(old(Snap()), calls[..k], Snap())
        invariant current != old(current) <==> old(current) != null && Free(old(current)) in calls[..k]
        invariant current != old(current) ==> old(current) !in ios
        invariant old(HalfDuplexOnly()) && Create !in calls[..k] ==> HalfDuplexOnly()
      {
        assert calls[..k + 1] == calls[..k] + [calls[k]];
        ghost var m := Snap();
        assert forall io :: io in ios && fresh(io) ==> !Names([calls[k]], io);
        DoOne(calls[k]);
        CalledBecomes(m, calls[k], Snap());
        BecomesBoth(old(Snap()), calls[..k], m, [calls[k]], Snap());
      }
      assert calls[..|calls|] == calls;
    }

    // io_callback
    method Tell(script: Notice -> seq<Call>, n: Notice)
      requires Valid()
      modifies this, ios
      ensures Valid() && frame == old(frame) && current in {old(current), null}
      ensures forall io :: io in ios ==> io in old(ios) || fresh(io)
      ensures Becomes(old(Snap()), CallsOf(script, [n]), Snap())
      ensures current != old(current) <==> old(current) != null && Free(old(current)) in script(n)
      ensures current != old(current) ==> old(current) !in ios
      ensures old(HalfDuplexOnly()) && CreatesNone(script) ==> HalfDuplexOnly()
    {
      hide Becomes, HalfDuplexOnly;
      CallsOfOne(script, n);
      Callback(script(n));
    }

    // io_frame_enter and io_hold, neither of which can fail outside a frame; the event has
    // fired and is gone.
    method FrameEnter(io: Io)
      requires Valid() && current == null && io in ios
      modifies this, ios
      ensures Valid() && current == io && frame == old(frame) && ios == old(ios)
      ensures Snap() == old(Snap()) && io.State() == old(io.State()) && (old(HalfDuplexOnly()) ==> HalfDuplexOnly())
    {
      assert !io.held;
      io.armed := NONE;
      current := io;
      io.reset := false;
      io.held := true;
    }

    // io_frame_leave and io_release
    method FrameLeave(io: Io)
      requires Valid() && current in {null, io}
      modifies this, ios
      ensures Valid() && current == null && frame == old(frame) + 1 && ios == old(ios) && Snap() == old(Snap())
      ensures old(HalfDuplexOnly()) ==> HalfDuplexOnly()
    {
      if current != null {
        assert io.held && !io.reset;
        io.held := false;
        io.Reload();
        current := null;
      }
      frame := frame + 1;
    }

    // io_dispatch: one event of an io, with its callbacks. It leaves no frame open and every
    // io armed as it wants, unless it goes on with an io that the callback for LOWAT has freed;
    // that happens exactly if the io is ready for input at the same time. told is what the
    // callbacks were called with.
    method Dispatch(io: Io, ev: Events, timeout: bool, wrote: Wrote, got: Got, script: Notice -> seq<Call>)
      returns (sound: bool, ghost told: seq<Notice>)
      requires Valid() && current == null && io in ios && Fires(io.armed, ev, timeout)
      modifies this, ios
      ensures sound ==> Valid() && current == null && frame == old(frame) + 1
      ensures sound <==> !(!timeout && ev.read && ev.write && old(LowWater(io.State(), wrote)) && Free(io) in script(LOWAT))
      ensures old(io.reading != io.writing) ==> sound
      ensures told == if sound then Told(old(io.State()), ev, timeout, wrote, got) else [LOWAT]
      ensures old(io.reading != io.writing) ==> (DATAIN in told ==> old(io.reading)) && (LOWAT in told ==> old(io.writing && io.queued > io.lowat))
      ensures forall o :: o in ios ==> o in old(ios) || fresh(o)
      ensures sound ==> Becomes(Shortened(old(Snap()), io, ev, timeout, wrote), CallsOf(script, told), Snap())
      ensures sound && old(HalfDuplexOnly()) && CreatesNone(script) ==> HalfDuplexOnly()
    {
      hide Becomes, CallsOf, CreatesNone, HalfDuplexOnly, LowWater;
      if io.reading != io.writing {
        HalfDuplex(io.State(), ev, timeout, wrote, got);
      }
      FrameEnter(io);
      if timeout {
        Tell(script, TIMEOUT);
        sound, told := true, [TIMEOUT];
      } else {
        sound, told := Serve(io, ev, wrote, got, script);
        if !sound { return; }
      }
      FrameLeave(io);
    }

    // The part of io_dispatch within the frame for an event that is no timeout.
    method Serve(io: Io, ev: Events, wrote: Wrote, got: Got, script: Notice -> seq<Call>) returns (sound: bool, ghost told: seq<Notice>)
      requires Valid() && current == io && (ev.write ==> io.queued > 0)
      modifies this, ios
      ensures sound ==> Valid() && frame == old(frame) && current in {io, null}
      ensures sound <==> !(ev.read && ev.write && old(LowWater(io.State(), wrote)) && Free(io) in script(LOWAT))
      ensures told == if sound then Told(old(io.State()), ev, false, wrote, got) else [LOWAT]
      ensures forall o :: o in ios ==> o in old(ios) || fresh(o)
      ensures sound ==> Becomes(Shortened(old(Snap()), io, ev, false, wrote), CallsOf(script, told), Snap())
      ensures sound && old(HalfDuplexOnly()) && CreatesNone(script) ==> HalfDuplexOnly()
    {
      hide Becomes, CreatesNone, HalfDuplexOnly, CallsOf;
      ghost var m, b := Shortened(Snap(), io, ev, false, wrote), ToldOfInput(got);
      ghost var cb := CallsOf(script, b);
      assert allocated(cb);
      CallsOfNone(script);
      BecomesSame(m);
      sound, told := true, [];
      if ev.write {
        var more;
        more, told := Output(io, wrote, script);
        if !more { return; }
      }
      if ev.read {
        if io !in ios { return false, told; }
        ghost var m1 := Snap();
        assert forall o :: o in ios && fresh(o) ==> !Names(cb, o);
        Input(io, got, script);
        BecomesBoth(m, CallsOf(script, told), m1, cb, Snap());
        CallsOfConcat(script, told, b);
        told := told + b;
      }
    }

    // The halves of io_dispatch for output and input; more says whether it goes on from the
    // first to the second.
    method Output(io: Io, wrote: Wrote, script: Notice -> seq<Call>) returns (more: bool, ghost told: seq<Notice>)
      requires Valid() && current == io && io.queued > 0
      modifies this, ios
      ensures Valid() && frame == old(frame) && current in {io, null} && (more <==> !wrote.WriteClosed? && !wrote.WriteError?)
      ensures forall o :: o in ios ==> o in old(ios) || fresh(o)
      ensures told == if wrote.WriteClosed? then [DISCONNECTED] else if wrote.WriteError? then [ERROR]
                      else if old(LowWater(io.State(), wrote)) then [LOWAT] else []
      ensures Becomes(Shortened(old(Snap()), io, Events(true, true), false, wrote), CallsOf(script, told), Snap())
      ensures more ==> (io in ios <==> current == io)
      ensures more ==> (io !in ios <==> old(LowWater(io.State(), wrote)) && Free(io) in script(LOWAT))
      ensures old(HalfDuplexOnly()) && CreatesNone(script) ==> HalfDuplexOnly()
    {
      hide Becomes, CallsOf, CreatesNone, HalfDuplexOnly;
      ghost var m := Shortened(Snap(), io, Events(true, true), false, wrote);
      CallsOfNone(script);
      BecomesSame(m);
      more, told := true, [];
      assert !wrote.Wrote? ==> Snap() == m;
      match wrote
      case WantWrite =>
      case WriteClosed =>
        Tell(script, DISCONNECTED);
        more, told := false, [DISCONNECTED];
      case WriteError =>
        Tell(script, ERROR);
        more, told := false, [ERROR];
      case Wrote(n0) =>
        told := Written(io, n0, script);
    }

    method Written(io: Io, n0: nat, script: Notice -> seq<Call>) returns (ghost told: seq<Notice>)
      requires Valid() && current == io && io.queued > 0
      modifies this, ios
      ensures Valid() && frame == old(frame) && current in {io, null} && (io in ios <==> current == io)
      ensures forall o :: o in ios ==> o in old(ios) || fresh(o)
      ensures told == if old(LowWater(io.State(), Wrote(n0))) then [LOWAT] else []
      ensures Becomes(Shortened(old(Snap()), io, Events(true, true), false, Wrote(n0)), CallsOf(script, told), Snap())
      ensures io !in ios <==> old(LowWater(io.State(), Wrote(n0))) && Free(io) in script(LOWAT)
      ensures old(HalfDuplexOnly()) && CreatesNone(script) ==> HalfDuplexOnly()
    {
      hide Becomes, CallsOf, CreatesNone, HalfDuplexOnly, Shortened;
      CallsOfNone(script);
      told := [];
      var w := io.queued;
      var n := if n0 < w then n0 else w;
      Shorten(io, n0, n);
      BecomesSame(Snap());
      if w > io.lowat && w - n <= io.lowat {
        Tell(script, LOWAT);
        told := [LOWAT];
      }
    }

    method Shorten(io: Io, ghost n0: nat, n: nat)
      requires Valid() && current == io && n == if n0 < io.queued then n0 else io.queued
      modifies io
      ensures Valid() && Snap() == Shortened(old(Snap()), io, Events(true, true), false, Wrote(n0))
      ensures io.lowat == old(io.lowat) && (old(HalfDuplexOnly()) ==> HalfDuplexOnly())
    {
      io.queued := io.queued - n;
    }

    method Input(io: Io, got: Got, script: Notice -> seq<Call>)
      requires Valid() && current == io
      modifies this, ios
      ensures Valid() && frame == old(frame) && current in {io, null}
      ensures forall o :: o in ios ==> o in old(ios) || fresh(o)
      ensures Becomes(old(Snap()), CallsOf(script, ToldOfInput(got)), Snap())
      ensures old(HalfDuplexOnly()) && CreatesNone(script) ==> HalfDuplexOnly()
    {
      hide Becomes, CallsOf, CreatesNone, HalfDuplexOnly;
      CallsOfNone(script);
      BecomesSame(Snap());
      match got
      case Got(n) => if n > 0 { Tell(script, DATAIN); }
      case ReadClosed => Tell(script, DISCONNECTED);
      case ReadError => Tell(script, ERROR);
    }

    // A call, or an event if its io is live and armed for it.
    method Step(s: Step) returns (sound: bool)
      requires Valid() && current == null
      modifies this, ios
      ensures sound ==> Valid() && current == null && old(frame) <= frame <= old(frame) + 1 && Follows(old(Snap()), s, Snap())
      ensures sound <==> !FreesEarly(old(Snap()), s)
      ensures old(HalfDuplexOnly()) ==> sound
      ensures forall io :: io in ios ==> io in old(ios) || fresh(io)
      ensures old(HalfDuplexOnly()) && StepCreatesNone(s) ==> HalfDuplexOnly()
    {
      hide Becomes, Told, CallsOf, CreatesNone;
      match s
      case Outside(call) =>
        DoOne(call);
        sound := true;
      case Event(io, ev, timeout, wrote, got, script) =>
        sound := true;
        if io in ios && Fires(io.armed, ev, timeout) {
          ghost var told;
          sound, told := Dispatch(io, ev, timeout, wrote, got, script);
        }
    }

    // Any run of calls and events. It ends with no frame open and every io armed for exactly
    // what it wants, unless it comes to an event for input and output at once whose callback
    // for LOWAT frees the io; there it ends. This cannot happen if all ios are in half duplex
    // and none is new (a new one is in full duplex). The trace has the live ios before and
    // after each step.
    method Run(steps: seq<Step>) returns (sound: bool, ghost trace: seq<map<Io, IoState>>)
      requires Valid() && current == null
      modifies this, ios
      ensures sound ==> Valid() && current == null && forall io :: io in ios ==> !io.held && io.armed == io.Wanted()
      ensures IsTrace(old(Snap()), steps, trace) && (sound ==> trace[|trace| - 1] == Snap())
      ensures sound <==> |trace| == |steps| + 1
      ensures forall k :: 0 <= k < |steps| && k < |trace| ==> (FreesEarly(trace[k], steps[k]) <==> !sound && k == |trace| - 1)
      ensures old(HalfDuplexOnly()) && (forall k :: 0 <= k < |steps| ==> StepCreatesNone(steps[k])) ==> sound && HalfDuplexOnly()
    {
      hide Follows, Snap, FreesEarly, StepCreatesNone, HalfDuplexOnly;
      ghost var start := ios;
      trace := [Snap()];
      for k := 0 to |steps|
        invariant Valid() && current == null
        invariant forall o :: o in ios ==> o in start || fresh(o)
        invariant old(HalfDuplexOnly()) && (forall j :: 0 <= j < |steps| ==> StepCreatesNone(steps[j])) ==> HalfDuplexOnly()
        invariant |trace| == k + 1 && trace[k] == Snap() && IsTrace(old(Snap()), steps, trace)
        invariant forall j :: 0 <= j < k ==> !FreesEarly(trace[j], steps[j])
      {
        sound := Step(steps[k]);
        if !sound { return; }
        trace := trace + [Snap()];
      }
      sound := true;
    }
  }

  // What a step does to the live ios: one call, or all calls of the callbacks of an event
  // after the output that was written is gone.
  ghost predicate Follows(m: map<Io, IoState>, s: Step, m': map<Io, IoState>) {
    match s
    case Outside(call) => Called(m, call, m')
    case Event(io, ev, timeout, wrote, got, script) =>
      if io in m && Fires(WantedBy(m[io]), ev, timeout)
      then Becomes(Shortened(m, io, ev, timeout, wrote), CallsOf(script, Told(m[io], ev, timeout, wrote, got)), m')
      else m' == m
  }

  ghost predicate Called(m: map<Io, IoState>, c: Call, m': map<Io, IoState>) {
    if c.Create? then exists io :: io in m' && io !in m && m' == m[io := NEW]
    else m' == if c.io !in m then m else if c.Free? then m - {c.io} else m[c.io := Changed(c, m[c.io])]
  }

  lemma {:induction false} CalledBecomes(m: map<Io, IoState>, c: Call, m': map<Io, IoState>)
    requires Called(m, c, m')
    ensures Becomes(m, [c], m')
  {
    hide Called, Changes, Gained, Creations;
    CalledChanges(m, c, m');
    CalledGains(m, c, m');
    AfterOne(NEW, c);
  }

  lemma {:induction false} CalledChanges(m: map<Io, IoState>, c: Call, m': map<Io, IoState>)
    requires Called(m, c, m')
    ensures Changes(m, [c], m')
  {
    hide Changed, AfterCalls, Creations;
    forall io | io in m && io in m'
      ensures m'[io] == AfterCalls(m[io], io, [c])
    {
      AfterOne(m[io], c);
    }
  }

  lemma {:induction false} CalledGains(m: map<Io, IoState>, c: Call, m': map<Io, IoState>)
    requires Called(m, c, m')
    ensures Gained(m.Keys, m'.Keys, if c.Create? then 1 else 0)
  {
    hide Changed, Gained;
    if c.Create? {
      var io :| io in m' && io !in m && m' == m[io := NEW];
      assert io in m'.Keys && io !in m.Keys && m'.Keys == m.Keys + {io};
      GainedOne(m.Keys, m'.Keys);
    } else {
      GainedNone(m.Keys, m'.Keys);
    }
  }

  // The beginning of a run, as far as the trace goes.
  ghost predicate IsTrace(m: map<Io, IoState>, steps: seq<Step>, trace: seq<map<Io, IoState>>) {
    0 < |trace| <= |steps| + 1 && trace[0] == m && forall k :: 0 <= k < |trace| - 1 ==> Follows(trace[k], steps[k], trace[k + 1])
  }

  /*** Pauses last ***/

  // A step that resumes the io for input, or for output.
  ghost predicate Resumes(s: Step, io: Io, input: bool) {
    match s
    case Outside(call) => IsResume(call, io, input)
    case Event(_, _, _, _, _, script) => exists n, c :: c in script(n) && IsResume(c, io, input)
  }

  predicate IsResume(c: Call, io: Io, input: bool) {
    c.Resume? && c.io == io && if input then c.input else c.output
  }

  function Paused(v: IoState, input: bool): bool {
    if input then v.pausedIn else v.pausedOut
  }

  lemma {:induction false} CallsKeepPause(v: IoState, io: Io, calls: seq<Call>, input: bool)
    requires Paused(v, input) && forall c :: c in calls ==> !IsResume(c, io, input)
    ensures Paused(AfterCalls(v, io, calls), input)
  {
    if calls != [] {
      assert calls[|calls| - 1] in calls;
      CallsKeepPause(v, io, calls[..|calls| - 1], input);
    }
  }

  lemma {:induction false} CallsOfScript(script: Notice -> seq<Call>, told: seq<Notice>, c: Call)
    requires c in CallsOf(script, told)
    ensures exists n :: c in script(n)
  {
    if c !in script(told[|told| - 1]) {
      CallsOfScript(script, told[..|told| - 1], c);
    }
  }

  lemma {:induction false} StepKeepsPause(m: map<Io, IoState>, s: Step, m': map<Io, IoState>, io: Io, input: bool)
    requires Follows(m, s, m') && io in m && io in m' && Paused(m[io], input) && !Resumes(s, io, input)
    ensures Paused(m'[io], input)
  {
    hide AfterCalls, CallsOf, Told, WantedBy, Gained, Creations;
    match s
    case Outside(call) =>
    case Event(o, ev, timeout, wrote, got, script) =>
      var calls := CallsOf(script, if o in m then Told(m[o], ev, timeout, wrote, got) else []);
      forall c | c in calls
        ensures !IsResume(c, io, input)
      {
        CallsOfScript(script, if o in m then Told(m[o], ev, timeout, wrote, got) else [], c);
      }
      if o in m && Fires(WantedBy(m[o]), ev, timeout) {
        CallsKeepPause(Shortened(m, o, ev, timeout, wrote)[io], io, calls, input);
      }
  }

  lemma {:induction false} StaysPaused(steps: seq<Step>, trace: seq<map<Io, IoState>>, io: Io, i: nat, j: nat, input: bool)
    requires |trace| > 0 && IsTrace(trace[0], steps, trace) && i <= j < |trace| && (forall k :: i <= k <= j ==> io in trace[k])
    requires Paused(trace[i][io], input) && forall k :: i <= k < j ==> !Resumes(steps[k], io, input)
    ensures Paused(trace[j][io], input)
    decreases j
  {
    hide Follows, Resumes;
    if i < j {
      StaysPaused(steps, trace, io, i, j - 1, input);
      StepKeepsPause(trace[j - 1], steps[j - 1], trace[j], io, input);
    }
  }

  // In a run, from io_pause for input until io_resume an io hears of no input; from io_pause
  // for output it hears of no room.
  lemma {:induction false} PausedHearsNothing(steps: seq<Step>, trace: seq<map<Io, IoState>>, io: Io, i: nat, j: nat, input: bool)
    requires |trace| > 0 && IsTrace(trace[0], steps, trace) && i < j < |trace| && j < |steps| && (forall k :: i <= k <= j ==> io in trace[k])
    requires steps[i].Outside? && steps[i].call.Pause? && steps[i].call.io == io && (if input then steps[i].call.input else steps[i].call.output)
    requires forall k :: i < k < j ==> !Resumes(steps[k], io, input)
    requires steps[j].Event? && steps[j].io == io && !steps[j].timeout && Fires(WantedBy(trace[j][io]), steps[j].ev, false)
    ensures (if input then DATAIN else LOWAT) !in Told(trace[j][io], steps[j].ev, false, steps[j].wrote, steps[j].got)
  {
    hide WantedBy, Told, Resumes;
    assert Follows(trace[i], steps[i], trace[i + 1]);
    assert Paused(trace[i + 1][io], input);
    hide Follows;
    StaysPaused(steps, trace, io, i + 1, j, input);
    HearsInput(trace[j][io], steps[j].ev, steps[j].wrote, steps[j].got);
    HearsRoom(trace[j][io], steps[j].ev, steps[j].wrote, steps[j].got);
  }

  // An event for input and output at once takes the queue to the mark, and the callback for
  // LOWAT frees the io.
  ghost predicate FreesEarly(m: map<Io, IoState>, s: Step) {
    && s.Event? && s.io in m && Fires(WantedBy(m[s.io]), s.ev, s.timeout)
    && !s.timeout && s.ev.read && s.ev.write && LowWater(m[s.io], s.wrote) && Free(s.io) in s.script(LOWAT)
  }

  ghost predicate CreatesNone(script: Notice -> seq<Call>) {
    forall n :: Create !in script(n)
  }

  ghost predicate StepCreatesNone(s: Step) {
    match s
    case Outside(call) => !call.Create?
    case Event(_, _, _, _, _, script) => CreatesNone(script)
  }

  // The failure is real: a fresh io, still in full duplex, has output queued and becomes
  // ready for both; all of it is written, and the callback for LOWAT frees the io.
  method UseAfterFree(n: nat) returns (sound: bool)
    requires n > 0
    ensures !sound
  {
    hide Becomes, Told, CallsOf;
    var s := new System();
    var io := new Io();
    s.ios := {io};
    s.Do(Queue(io, n));
    ghost var told;
    sound, told := s.Dispatch(io, Events(true, true), false, Wrote(n), Got(0), x => if x == LOWAT then [Free(io)] else []);
  }
}
