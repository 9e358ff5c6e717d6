/** The waiting messages of the bounce engine (usr.sbin/smtpd/bounce.c): how they are kept
    and which one a session takes next. */
module BounceQueue {
  import opened Common
  import opened Keys

  // What a message is filed under; bounce stands for struct delivery_bounce.
  datatype Key = Key(msgid: nat, smtpname: Text, bounce: Text)

  datatype Message = Message(key: Key, timeout: int, envelopes: seq<nat>)

  datatype Delivery = OK | PERMFAIL | TEMPFAIL

  ghost predicate ByTimeout(ms: seq<Message>) {
    forall i, j :: 0 <= i < j < |ms| ==> ms[i].timeout <= ms[j].timeout
  }

  ghost predicate DistinctKeys(ms: seq<Message>) {
    forall i, j :: 0 <= i < j < |ms| ==> ms[i].key != ms[j].key
  }

  function KeysOf(ms: seq<Message>): set<Key> {
    set i | 0 <= i < |ms| :: ms[i].key
  }

  lemma {:induction false} KeysAppend(ms: seq<Message>, m: Message)
    requires DistinctKeys(ms) && m.key !in KeysOf(ms)
    ensures KeysOf(ms + [m]) == KeysOf(ms) + {m.key} && DistinctKeys(ms + [m])
  {
    var r := ms + [m];
    assert forall i :: 0 <= i < |ms| ==> r[i] == ms[i] && ms[i].key in KeysOf(ms);
    assert r[|ms|] == m;
  }

  lemma {:induction false} KeysWithout(ms: seq<Message>, k: nat)
    requires DistinctKeys(ms) && k < |ms|
    ensures KeysOf(ms[..k] + ms[k + 1..]) == KeysOf(ms) - {ms[k].key} && DistinctKeys(ms[..k] + ms[k + 1..])
  {
    var r := ms[..k] + ms[k + 1..];
    forall x | x in KeysOf(r)
      ensures x in KeysOf(ms) && x != ms[k].key
    {
      var i :| 0 <= i < |r| && r[i].key == x;
      var j := if i < k then i else i + 1;
      assert r[i] == ms[j];
    }
    forall x | x in KeysOf(ms) && x != ms[k].key
      ensures x in KeysOf(r)
    {
      var j :| 0 <= j < |ms| && ms[j].key == x;
      var i := if j < k then j else j - 1;
      assert r[i] == ms[j];
    }
    forall i, j | 0 <= i < j < |r|
      ensures r[i].key != r[j].key
    {
      assert r[i] == ms[if i < k then i else i + 1] && r[j] == ms[if j < k then j else j + 1];
    }
  }

  // New waiting messages after an envelope: its message is the last one, with that envelope
  // at the end; all others are as they were.
  ghost predicate Joins(before: seq<Message>, after: seq<Message>, key: Key, evpid: nat, timeout: int) {
    && after != []
    && var others, m := after[..|after| - 1], after[|after| - 1];
       if key !in KeysOf(before) then others == before && m == Message(key, timeout, [evpid])
       else exists k :: 0 <= k < |before| && before[k].key == key && others == before[..k] + before[k + 1..]
                        && m == Message(key, timeout, before[k].envelopes + [evpid])
  }

  lemma {:induction false} JoinsNew(ms: seq<Message>, key: Key, evpid: nat, timeout: int)
    requires key !in KeysOf(ms)
    ensures Joins(ms, ms + [Message(key, timeout, [] + [evpid])], key, evpid, timeout)
  {
    var m := Message(key, timeout, [evpid]);
    assert [] + [evpid] == [evpid] && (ms + [m])[..|ms|] == ms;
  }

  lemma {:induction false} JoinsOld(ms: seq<Message>, k: nat, key: Key, evpid: nat, timeout: int)
    requires k < |ms| && ms[k].key == key
    ensures Joins(ms, (ms[..k] + ms[k + 1..]) + [ms[k].(envelopes := ms[k].envelopes + [evpid], timeout := timeout)], key, evpid, timeout)
  {
    var others, m := ms[..k] + ms[k + 1..], Message(key, timeout, ms[k].envelopes + [evpid]);
    assert (others + [m])[..|others|] == others && key in KeysOf(ms);
  }

  function Reports(ids: seq<nat>, d: Delivery): seq<(nat, Delivery)> {
    seq(|ids|, i requires 0 <= i < |ids| => (ids[i], d))
  }

  predicate Due(m: Message, smtpname: Text, now: int) {
    m.timeout <= now && m.key.smtpname == smtpname
  }

  /*** Choosing the next message ***/

  // The message chosen, those left waiting, and those that could not be opened.
  datatype Pick = Pick(msg: Option<Message>, rest: seq<Message>, failed: seq<Message>)

  function FirstDue(ms: seq<Message>, smtpname: Text, now: int): (k: nat)
    ensures k <= |ms| && (k < |ms| ==> Due(ms[k], smtpname, now)) && forall j :: 0 <= j < k ==> !Due(ms[j], smtpname, now)
  {
    if ms == [] || Due(ms[0], smtpname, now) then 0 else 1 + FirstDue(ms[1..], smtpname, now)
  }

  function PickFrom(ms: seq<Message>, smtpname: Text, now: int, opens: nat -> bool, tries: nat): (p: Pick)
    decreases |ms|
  {
    var k := FirstDue(ms, smtpname, now);
    if k == |ms| then Pick(None, ms, [])
    else if opens(tries) then Pick(Some(ms[k]), ms[..k] + ms[k + 1..], [])
    else
      var p := PickFrom(ms[..k] + ms[k + 1..], smtpname, now, opens, tries + 1);
      Pick(p.msg, p.rest, [ms[k]] + p.failed)
  }

  // The messages that are due for a name, or those that are not, in order.
  function Those(ms: seq<Message>, smtpname: Text, now: int, due: bool): seq<Message> {
    if ms == [] then [] else (if Due(ms[0], smtpname, now) == due then [ms[0]] else []) + Those(ms[1..], smtpname, now, due)
  }

  lemma {:induction false} ThoseConcat(a: seq<Message>, b: seq<Message>, smtpname: Text, now: int, due: bool)
    ensures Those(a + b, smtpname, now, due) == Those(a, smtpname, now, due) + Those(b, smtpname, now, due)
  {
    hide Due;
    if a == [] {
      assert a + b == b;
    } else {
      ThoseConcat(a[1..], b, smtpname, now, due);
      assert (a + b)[1..] == a[1..] + b;
      Assoc(if Due(a[0], smtpname, now) == due then [a[0]] else [], Those(a[1..], smtpname, now, due), Those(b, smtpname, now, due));
    }
  }

  lemma {:induction false} ThoseOne(m: Message, smtpname: Text, now: int, due: bool)
    ensures Those([m], smtpname, now, due) == if Due(m, smtpname, now) == due then [m] else []
  {
    hide Due;
    assert [m][1..] == [];
  }

  lemma {:induction false} NoneDue(ms: seq<Message>, smtpname: Text, now: int)
    requires forall j :: 0 <= j < |ms| ==> !Due(ms[j], smtpname, now)
    ensures Those(ms, smtpname, now, true) == []
  {
    hide Due;
    if ms != [] {
      NoneDue(ms[1..], smtpname, now);
    }
  }

  // What the choice means: of the messages that are due, those before the first that opens
  // have failed; that one is chosen; all others stay, in order.
  ghost predicate Chosen(ms: seq<Message>, smtpname: Text, now: int, opens: nat -> bool, tries: nat, p: Pick) {
    var due, t := Those(ms, smtpname, now, true), |p.failed|;
    && t <= |due| && p.failed == due[..t] && (forall j :: tries <= j < tries + t ==> !opens(j))
    && (if t == |due| then p.msg.None? else p.msg == Some(due[t]) && opens(tries + t))
    && Those(p.rest, smtpname, now, true) == (if t == |due| then [] else due[t + 1..])
    && Those(p.rest, smtpname, now, false) == Those(ms, smtpname, now, false)
  }

  lemma {:induction false} PickMeaning(ms: seq<Message>, smtpname: Text, now: int, opens: nat -> bool, tries: nat)
    ensures Chosen(ms, smtpname, now, opens, tries, PickFrom(ms, smtpname, now, opens, tries))
    decreases |ms|
  {
    hide Due, Those, Chosen;
    var k := FirstDue(ms, smtpname, now);
    if k == |ms| {
      NoneDue(ms, smtpname, now);
      ChosenNone(ms, smtpname, now, opens, tries);
    } else {
      WithoutDue(ms, k, smtpname, now, true);
      WithoutDue(ms, k, smtpname, now, false);
      var rest := ms[..k] + ms[k + 1..];
      if opens(tries) {
        ChosenFirst(ms, rest, ms[k], smtpname, now, opens, tries);
      } else {
        PickMeaning(rest, smtpname, now, opens, tries + 1);
        ChosenLater(ms, rest, ms[k], smtpname, now, opens, tries, PickFrom(rest, smtpname, now, opens, tries + 1));
      }
    }
  }

  // The message taken is due and goes out under the session's name; so did those that failed;
  // if none is taken, none is left that is.
  lemma {:induction false} PickIsDue(ms: seq<Message>, smtpname: Text, now: int, opens: nat -> bool)
    ensures var p := PickFrom(ms, smtpname, now, opens, 0);
            && (p.msg.Some? ==> p.msg.value in ms && p.msg.value.timeout <= now && p.msg.value.key.smtpname == smtpname)
            && (forall m :: m in p.failed ==> m in ms && m.timeout <= now && m.key.smtpname == smtpname)
            && (p.msg.None? ==> forall m :: m in p.rest ==> m in ms && (m.timeout > now || m.key.smtpname != smtpname))
            && forall m :: m in p.rest ==> m in ms
  {
    PickKinds(ms, smtpname, now, opens, 0);
  }

  lemma {:induction false} PickKinds(ms: seq<Message>, smtpname: Text, now: int, opens: nat -> bool, tries: nat)
    ensures var p := PickFrom(ms, smtpname, now, opens, tries);
            && (p.msg.Some? ==> p.msg.value in ms && p.msg.value.timeout <= now && p.msg.value.key.smtpname == smtpname)
            && (forall m :: m in p.failed ==> m in ms && m.timeout <= now && m.key.smtpname == smtpname)
            && (p.msg.None? ==> forall m :: m in p.rest ==> m.timeout > now || m.key.smtpname != smtpname)
            && forall m :: m in p.rest ==> m in ms
    decreases |ms|
  {
    hide FirstDue;
    var k := FirstDue(ms, smtpname, now);
    if k < |ms| {
      var rest := ms[..k] + ms[k + 1..];
      assert forall m :: m in rest ==> m in ms;
      if !opens(tries) {
        PickKinds(rest, smtpname, now, opens, tries + 1);
      }
    }
  }

  lemma {:induction false} WithoutDue(ms: seq<Message>, k: nat, smtpname: Text, now: int, due: bool)
    requires k < |ms| && Due(ms[k], smtpname, now) && forall j :: 0 <= j < k ==> !Due(ms[j], smtpname, now)
    ensures Those(ms, smtpname, now, due) == (if due then [ms[k]] else []) + Those(ms[..k] + ms[k + 1..], smtpname, now, due)
  {
    hide Due, Those;
    var a, m, b := ms[..k], ms[k], ms[k + 1..];
    assert ms == a + ([m] + b);
    ThoseConcat(a, [m] + b, smtpname, now, due);
    ThoseConcat([m], b, smtpname, now, due);
    ThoseConcat(a, b, smtpname, now, due);
    ThoseOne(m, smtpname, now, due);
    NoneDue(a, smtpname, now);
    assert [] + Those(b, smtpname, now, due) == Those(b, smtpname, now, due);
    assert due ==> [] + ([m] + Those(b, smtpname, now, due)) == [m] + ([] + Those(b, smtpname, now, due));
    assert [] + (Those(a, smtpname, now, due) + Those(b, smtpname, now, due)) == Those(a, smtpname, now, due) + Those(b, smtpname, now, due);
  }

  lemma {:induction false} ChosenNone(ms: seq<Message>, smtpname: Text, now: int, opens: nat -> bool, tries: nat)
    requires Those(ms, smtpname, now, true) == []
    ensures Chosen(ms, smtpname, now, opens, tries, Pick(None, ms, []))
  {
    hide Due, Those;
  }

  lemma {:induction false} ChosenFirst(ms: seq<Message>, rest: seq<Message>, m: Message, smtpname: Text, now: int, opens: nat -> bool, tries: nat)
    requires Those(ms, smtpname, now, true) == [m] + Those(rest, smtpname, now, true)
    requires Those(ms, smtpname, now, false) == [] + Those(rest, smtpname, now, false) && opens(tries)
    ensures Chosen(ms, smtpname, now, opens, tries, Pick(Some(m), rest, []))
  {
    hide Due, Those;
  }

  lemma {:induction false} ChosenLater(ms: seq<Message>, rest: seq<Message>, m: Message, smtpname: Text, now: int, opens: nat -> bool, tries: nat, p: Pick)
    requires Those(ms, smtpname, now, true) == [m] + Those(rest, smtpname, now, true)
    requires Those(ms, smtpname, now, false) == [] + Those(rest, smtpname, now, false)
    requires !opens(tries) && Chosen(rest, smtpname, now, opens, tries + 1, p)
    ensures Chosen(ms, smtpname, now, opens, tries, Pick(p.msg, p.rest, [m] + p.failed))
  {
    hide Due, Those;
    ConsSlices(m, Those(rest, smtpname, now, true), |p.failed|);
  }

  lemma {:induction false} ConsSlices(m: Message, ms: seq<Message>, t: nat)
    requires t <= |ms|
    ensures ([m] + ms)[..t + 1] == [m] + ms[..t] && (t < |ms| ==> ([m] + ms)[t + 2..] == ms[t + 1..] && ([m] + ms)[t + 1] == ms[t])
  {
  }

  // After some failures, choosing goes on from where it is.
  ghost predicate PicksOn(ms0: seq<Message>, smtpname: Text, now: int, opens: nat -> bool, failed: seq<Message>, ms: seq<Message>, tries: nat) {
    var p := PickFrom(ms, smtpname, now, opens, tries);
    PickFrom(ms0, smtpname, now, opens, 0) == Pick(p.msg, p.rest, failed + p.failed)
  }

  lemma {:induction false} PickNone(ms: seq<Message>, reported: seq<(nat, Delivery)>, smtpname: Text, now: int, opens: nat -> bool)
    ensures PicksOn(ms, smtpname, now, opens, [], ms, 0) && reported == reported + AllReports([])
  {
    hide PickFrom;
    var f := PickFrom(ms, smtpname, now, opens, 0).failed;
    assert [] + f == f;
  }

  lemma {:induction false} PickStep(ms0: seq<Message>, smtpname: Text, now: int, opens: nat -> bool,
                                    failed: seq<Message>, ms: seq<Message>, tries: nat, k: nat)
    requires PicksOn(ms0, smtpname, now, opens, failed, ms, tries)
    requires k <= |ms| && (k < |ms| ==> Due(ms[k], smtpname, now)) && forall j :: 0 <= j < k ==> !Due(ms[j], smtpname, now)
    ensures k == |ms| ==> PickFrom(ms0, smtpname, now, opens, 0) == Pick(None, ms, failed)
    ensures k < |ms| && opens(tries) ==> PickFrom(ms0, smtpname, now, opens, 0) == Pick(Some(ms[k]), ms[..k] + ms[k + 1..], failed)
    ensures k < |ms| && !opens(tries) ==> PicksOn(ms0, smtpname, now, opens, failed + [ms[k]], ms[..k] + ms[k + 1..], tries + 1)
  {
    hide Due;
    var f := FirstDue(ms, smtpname, now);
    assert f == k;
    assert failed + [] == failed;
    if k < |ms| && !opens(tries) {
      Assoc(failed, [ms[k]], PickFrom(ms[..k] + ms[k + 1..], smtpname, now, opens, tries + 1).failed);
    }
  }

  // What is reported about messages that cannot be opened.
  function AllReports(ms: seq<Message>): seq<(nat, Delivery)> {
    if ms == [] then [] else AllReports(ms[..|ms| - 1]) + Reports(ms[|ms| - 1].envelopes, TEMPFAIL)
  }

  lemma {:induction false} AllReportsNone()
    ensures AllReports([]) == []
  {
  }

  lemma {:induction false} AllReportsAppend(rs: seq<(nat, Delivery)>, ms: seq<Message>, m: Message)
    ensures rs + AllReports(ms) + Reports(m.envelopes, TEMPFAIL) == rs + AllReports(ms + [m])
  {
    hide Reports;
    assert (ms + [m])[..|ms|] == ms;
    Assoc(rs, AllReports(ms), Reports(m.envelopes, TEMPFAIL));
  }
}
