/** Envelopes on disk (usr.sbin/smtpd/envelope.c): what is written and read again, whatever
    the order in which the dictionary hands out the fields. */
module Envelope {
  import opened Common
  import opened EnvelopeText

  /*** Fields and values ***/

  // The fields with a name, in the order of ascii_load_field.
  datatype Field = DISPATCHER | BOUNCE_DELAY | BOUNCE_TTL | BOUNCE_TYPE | CTIME | DEST | USERNAME | ERRORLINE | TTL | FLAGS
                 | HELO | HOSTNAME | LAST_BOUNCE | LAST_TRY | RETRY | RCPT | MDA_EXEC | MDA_SUBADDRESS | MDA_USER | SENDER
                 | SMTPNAME | SOCKADDR | TAG | TYPE | VERSION | DSN_NOTIFY | DSN_ORCPT | DSN_RET | DSN_ENVID | ESC_CLASS | ESC_CODE

  const ALL: seq<Field> := [DISPATCHER, BOUNCE_DELAY, BOUNCE_TTL, BOUNCE_TYPE, CTIME, DEST, USERNAME, ERRORLINE, TTL, FLAGS,
                            HELO, HOSTNAME, LAST_BOUNCE, LAST_TRY, RETRY, RCPT, MDA_EXEC, MDA_SUBADDRESS, MDA_USER, SENDER,
                            SMTPNAME, SOCKADDR, TAG, TYPE, VERSION, DSN_NOTIFY, DSN_ORCPT, DSN_RET, DSN_ENVID, ESC_CLASS, ESC_CODE]

  function Name(f: Field): string {
    match f
    case DISPATCHER => "dispatcher"
    case BOUNCE_DELAY => "bounce-delay"
    case BOUNCE_TTL => "bounce-ttl"
    case BOUNCE_TYPE => "bounce-type"
    case CTIME => "ctime"
    case DEST => "dest"
    case USERNAME => "username"
    case ERRORLINE => "errorline"
    case TTL => "ttl"
    case FLAGS => "flags"
    case HELO => "helo"
    case HOSTNAME => "hostname"
    case LAST_BOUNCE => "last-bounce"
    case LAST_TRY => "last-try"
    case RETRY => "retry"
    case RCPT => "rcpt"
    case MDA_EXEC => "mda-exec"
    case MDA_SUBADDRESS => "mda-subaddress"
    case MDA_USER => "mda-user"
    case SENDER => "sender"
    case SMTPNAME => "smtpname"
    case SOCKADDR => "sockaddr"
    case TAG => "tag"
    case TYPE => "type"
    case VERSION => "version"
    case DSN_NOTIFY => "dsn-notify"
    case DSN_ORCPT => "dsn-orcpt"
    case DSN_RET => "dsn-ret"
    case DSN_ENVID => "dsn-envid"
    case ESC_CLASS => "esc-class"
    case ESC_CODE => "esc-code"
  }

  datatype DeliveryType = MDA | MTA | BOUNCE

  datatype BounceType = FAILED | DELAYED | DELIVERED

  // No value of enum dsn_ret is 0.
  datatype DsnRet = UNSET | FULL | HDRS

  datatype Value = Str(s: string) | Num(n: int) | Mail(user: string, domain: string) | Sock(addr: nat) | Type(t: DeliveryType)
                 | Flags(authenticated: bool, bounce: bool, internal: bool) | Bounce(b: BounceType) | Ret(r: DsnRet)

  datatype Kind = STRING(size: nat) | UINT(max: nat) | TIME | MAIL | SOCK | DELIVERY | FLAGBITS | BOUNCEKIND | RETURN

  const HOST_SIZE: nat := 256
  const TIME_MAX: int := 0x7fff_ffff_ffff_ffff
  const VERSION_NUMBER: nat := 3

  function KindOf(f: Field): Kind {
    match f
    case DISPATCHER => STRING(HOST_SIZE)
    case BOUNCE_DELAY => TIME
    case BOUNCE_TTL => TIME
    case BOUNCE_TYPE => BOUNCEKIND
    case CTIME => TIME
    case DEST => MAIL
    case USERNAME => STRING(256)
    case ERRORLINE => STRING(LINE_MAX)
    case TTL => TIME
    case FLAGS => FLAGBITS
    case HELO => STRING(HOST_SIZE)
    case HOSTNAME => STRING(HOST_SIZE)
    case LAST_BOUNCE => TIME
    case LAST_TRY => TIME
    case RETRY => UINT(0xffff)
    case RCPT => MAIL
    case MDA_EXEC => STRING(LINE_MAX)
    case MDA_SUBADDRESS => STRING(256)
    case MDA_USER => STRING(256)
    case SENDER => MAIL
    case SMTPNAME => STRING(HOST_SIZE)
    case SOCKADDR => SOCK
    case TAG => STRING(33)
    case TYPE => DELIVERY
    case VERSION => UINT(0xffff_ffff)
    case DSN_NOTIFY => UINT(0xff)
    case DSN_ORCPT => STRING(501)
    case DSN_RET => RETURN
    case DSN_ENVID => STRING(101)
    case ESC_CLASS => UINT(0xff)
    case ESC_CODE => UINT(0xff)
  }

  type Envelope = map<Field, Value>

  // A string in a field of that size, within one line.
  predicate Fits(s: string, size: nat) {
    |s| < size && '\n' !in s
  }

  predicate OfKind(v: Value, k: Kind) {
    match k
    case STRING(size) => v.Str? && Fits(v.s, size)
    case UINT(max) => v.Num? && 0 <= v.n <= max
    case TIME => v.Num? && -TIME_MAX - 1 <= v.n <= TIME_MAX
    case MAIL => v.Mail? && Fits(v.user, PART_SIZE) && Fits(v.domain, PART_SIZE)
    case SOCK => v.Sock?
    case DELIVERY => v.Type?
    case FLAGBITS => v.Flags?
    case BOUNCEKIND => v.Bounce?
    case RETURN => v.Ret?
  }

  ghost predicate Valid(e: Envelope) {
    forall f: Field :: OfKind(Get(e, f), KindOf(f))
  }

  function Get(e: Envelope, f: Field): Value {
    if f in e then e[f] else Zero(KindOf(f))
  }

  // ss_to_text and ascii_load_sockaddr
  datatype SockText = SockText(show: nat -> string, read: string -> Option<nat>)

  ghost predicate GoodSock(c: SockText) {
    forall a: nat :: var s := c.show(a); s != [] && !IsSpace(s[0]) && '\n' !in s && c.read(s) == Some(a)
  }

  // memset to 0
  function Zero(k: Kind): Value {
    match k
    case STRING(_) => Str("")
    case UINT(_) => Num(0)
    case TIME => Num(0)
    case MAIL => Mail("", "")
    case SOCK => Sock(0)
    case DELIVERY => Type(MDA)
    case FLAGBITS => Flags(false, false, false)
    case BOUNCEKIND => Bounce(FAILED)
    case RETURN => Ret(UNSET)
  }

  /*** Writing ***/

  function ShowFlags(v: Value): string
    requires v.Flags?
  {
    if !v.authenticated then ShowTwo(v)
    else if ShowTwo(v) == "" then "authenticated"
    else "authenticated" + (" " + ShowTwo(v))
  }

  function ShowTwo(v: Value): string
    requires v.Flags?
  {
    if v.bounce then (if v.internal then "bounce" + (" " + "internal") else "bounce")
    else if v.internal then "internal"
    else ""
  }

  function ShowValue(v: Value, c: SockText): string {
    match v
    case Str(s) => s
    case Num(n) => Signed(n)
    case Mail(user, domain) => ShowMail(user, domain)
    case Sock(a) => c.show(a)
    case Type(t) => (match t case MDA => "mda" case MTA => "mta" case BOUNCE => "bounce")
    case Flags(_, _, _) => ShowFlags(v)
    case Bounce(b) => (match b case FAILED => "failed" case DELAYED => "delayed" case DELIVERED => "delivered")
    case Ret(r) => (match r case UNSET => "" case FULL => "FULL" case HDRS => "HDRS")
  }

  // ascii_dump_field; an empty text is not written.
  function FieldText(e: Envelope, f: Field, c: SockText): string {
    if f == VERSION then Signed(VERSION_NUMBER)
    else if (f == BOUNCE_DELAY || f == BOUNCE_TTL) && Get(e, BOUNCE_TYPE) != Bounce(DELAYED) then ""
    else if (f == ESC_CLASS || f == ESC_CODE) && Get(e, ESC_CLASS) == Num(0) then ""
    else ShowValue(Get(e, f), c)
  }

  function Order(e: Envelope): seq<Field> {
    FIRST + (SECOND + (THIRD + Agent(e)))
  }

  const FIRST: seq<Field> := [VERSION, DISPATCHER, TAG, TYPE, SMTPNAME, HELO, HOSTNAME, USERNAME]
  const SECOND: seq<Field> := [ERRORLINE, SOCKADDR, SENDER, RCPT, DEST, CTIME, LAST_TRY, LAST_BOUNCE]
  const THIRD: seq<Field> := [TTL, RETRY, FLAGS, DSN_NOTIFY, DSN_RET, DSN_ENVID, DSN_ORCPT, ESC_CLASS, ESC_CODE]

  function Agent(e: Envelope): seq<Field> {
    match Get(e, TYPE)
    case Type(MDA) => [MDA_EXEC, MDA_SUBADDRESS, MDA_USER]
    case Type(BOUNCE) => [BOUNCE_TTL, BOUNCE_DELAY, BOUNCE_TYPE]
    case _ => []
  }

  // envelope_ascii_dump
  function Line(e: Envelope, f: Field, c: SockText): string {
    if FieldText(e, f, c) == "" then "" else Name(f) + ": " + FieldText(e, f, c) + "\n"
  }

  function Lines(e: Envelope, fs: seq<Field>, c: SockText): string {
    if fs == [] then "" else Line(e, fs[0], c) + Lines(e, fs[1..], c)
  }

  // envelope_dump_buffer
  function Dump(e: Envelope, c: SockText): string {
    Lines(e, Order(e), c)
  }

  // A field that is in the dump.
  predicate Saved(e: Envelope, f: Field, c: SockText) {
    f in Order(e) && FieldText(e, f, c) != ""
  }

  /*** Reading ***/

  // ascii_load_flags: words separated by one of three characters
  function ReadFlags(s: string, v: Value): Option<Value>
    requires v.Flags?
    decreases |s|
  {
    var n := Find(s, IsSeparator);
    match ReadFlag(s[..n], v)
    case None => None
    case Some(w) => if n == |s| then Some(w) else ReadFlags(s[n + 1..], w)
  }

  function ReadFlag(s: string, v: Value): (r: Option<Value>)
    requires v.Flags?
    ensures r.Some? ==> r.value.Flags?
  {
    if CaseEqual(s, "authenticated") then Some(v.(authenticated := true))
    else if CaseEqual(s, "enqueued") then Some(v)
    else if CaseEqual(s, "bounce") then Some(v.(bounce := true))
    else if CaseEqual(s, "internal") then Some(v.(internal := true))
    else None
  }

  function ReadType(s: string): Option<Value> {
    if CaseEqual(s, "mda") then Some(Type(MDA))
    else if CaseEqual(s, "mta") then Some(Type(MTA))
    else if CaseEqual(s, "bounce") then Some(Type(BOUNCE))
    else None
  }

  function ReadBounce(s: string): Option<Value> {
    if CaseEqual(s, "error") || CaseEqual(s, "failed") then Some(Bounce(FAILED))
    else if CaseEqual(s, "warn") || CaseEqual(s, "delayed") then Some(Bounce(DELAYED))
    else if CaseEqual(s, "dsn") || CaseEqual(s, "delivered") then Some(Bounce(DELIVERED))
    else None
  }

  function ReadRet(s: string): Option<Value> {
    if CaseEqual(s, "HDRS") then Some(Ret(HDRS))
    else if CaseEqual(s, "FULL") then Some(Ret(FULL))
    else None
  }

  function ReadNum(s: string, max: int): Option<Value> {
    match StrToNum(s, 0, max)
    case None => None
    case Some(n) => Some(Num(n))
  }

  function ReadValue(k: Kind, s: string, c: SockText): Option<Value> {
    match k
    case STRING(size) => if |s| < size then Some(Str(s)) else None
    case UINT(max) => ReadNum(s, max)
    case TIME => ReadNum(s, TIME_MAX)
    case MAIL => (match ReadMail(s) case None => None case Some(a) => Some(Mail(a.0, a.1)))
    case SOCK => (match c.read(s) case None => None case Some(a) => Some(Sock(a)))
    case DELIVERY => ReadType(s)
    case FLAGBITS => ReadFlags(s, Flags(false, false, false))
    case BOUNCEKIND => ReadBounce(s)
    case RETURN => ReadRet(s)
  }

  // The field with a name, the first of them.
  function Named(s: string, fs: seq<Field>): Option<Field> {
    if fs == [] then None
    else if CaseEqual(Name(fs[0]), s) then Some(fs[0])
    else Named(s, fs[1..])
  }

  // envelope_ascii_load, with the entries of the dictionary in some order
  function LoadFields(order: seq<string>, d: map<string, string>, e: Envelope, c: SockText): Option<Envelope>
    requires forall k :: k in order ==> k in d
  {
    if order == [] then Some(e)
    else
      match Named(order[0], ALL)
      case None => None
      case Some(f) =>
        match ReadValue(KindOf(f), d[order[0]], c)
        case None => None
        case Some(v) => LoadFields(order[1..], d, e[f := v], c)
  }

  ghost predicate IsOrder(order: seq<string>, d: map<string, string>) {
    forall k :: k in order <==> k in d
  }

  function Blank(): (e: Envelope)
    ensures forall f: Field :: f in e && e[f] == Zero(KindOf(f))
  {
    map f: Field | true :: Zero(KindOf(f))
  }

  // envelope_load_buffer; size is that of the buffer for the text, order that of dict_iter.
  function Load(text: string, size: nat, order: map<string, string> -> seq<string>, c: SockText): Option<Envelope>
    requires forall d :: IsOrder(order(d), d)
  {
    if |text| >= size then None
    else
      match ParseLines(text, map[])
      case None => None
      case Some(d) =>
        if "version" !in d || StrToNum(d["version"], 1, 64) != Some(VERSION_NUMBER) then None
        else
          assert IsOrder(order(d), d);
          match LoadFields(order(d), d, Blank(), c)
          case None => None
          case Some(e) => Some(e[VERSION := Num(VERSION_NUMBER)])
  }

  /*** Names ***/

  lemma {:induction false} FieldChars(f: Field)
    ensures forall i :: 0 <= i < |Name(f)| ==> IsNameChar(Name(f)[i])
  {
    hide Name, IsNameChar;
    if |Name(f)| < 8 {
      ShortNames(f);
    } else if |Name(f)| == 8 {
      Names8(f);
    } else if |Name(f)| < 11 {
      Names10(f);
    } else {
      LongNames(f);
    }
  }

  lemma {:induction false} ShortNames(f: Field)
    requires |Name(f)| < 8
    ensures forall i :: 0 <= i < |Name(f)| ==> IsNameChar(Name(f)[i])
  {
  }

  lemma {:induction false} Names8(f: Field)
    requires |Name(f)| == 8
    ensures forall i :: 0 <= i < |Name(f)| ==> IsNameChar(Name(f)[i])
  {
  }

  lemma {:induction false} Names10(f: Field)
    requires 9 <= |Name(f)| <= 10
    ensures forall i :: 0 <= i < |Name(f)| ==> IsNameChar(Name(f)[i])
  {
  }

  lemma {:induction false} LongNames(f: Field)
    requires |Name(f)| > 10
    ensures forall i :: 0 <= i < |Name(f)| ==> IsNameChar(Name(f)[i])
  {
  }

  // Length and a few letters tell the names apart.
  function Told(n: nat, a: char, b: char, c: char): Field {
    if n == 3 then (if b == 't' then TTL else TAG)
    else if n == 4 then (if a == 'd' then DEST else if a == 'h' then HELO else if a == 'r' then RCPT else TYPE)
    else if n == 5 then (if a == 'c' then CTIME else if a == 'f' then FLAGS else RETRY)
    else if n == 6 then SENDER
    else if n == 7 then (if a == 'v' then VERSION else DSN_RET)
    else if n == 8 then
      if a == 'u' then USERNAME else if a == 'h' then HOSTNAME else if a == 'l' then LAST_TRY
      else if a == 'm' then (if c == 'e' then MDA_EXEC else MDA_USER)
      else if a == 's' then (if b == 'm' then SMTPNAME else SOCKADDR) else ESC_CODE
    else if n == 9 then (if c == 'r' then ERRORLINE else if c == 'o' then DSN_ORCPT else if c == 'e' then DSN_ENVID else ESC_CLASS)
    else if n == 10 then (if a == 'b' then BOUNCE_TTL else if b == 'i' then DISPATCHER else DSN_NOTIFY)
    else if n == 11 then (if a == 'b' then BOUNCE_TYPE else LAST_BOUNCE)
    else if n == 12 then BOUNCE_DELAY
    else MDA_SUBADDRESS
  }

  function FieldFrom(s: string): Field
    requires |s| >= 3
  {
    Told(|s|, Lower(s[0]), Lower(s[1]), if |s| > 4 then Lower(s[4]) else ' ')
  }

  lemma {:induction false} FieldFromName(f: Field)
    ensures |Name(f)| >= 3 && FieldFrom(Name(f)) == f
  {
  }

  lemma {:induction false} NamesDiffer(f: Field, g: Field)
    requires CaseEqual(Name(f), Name(g))
    ensures f == g
  {
    hide Name, Told, Lower;
    FieldFromName(f);
    FieldFromName(g);
  }

  lemma {:induction false} NamedIn(f: Field, fs: seq<Field>)
    requires f in fs
    ensures Named(Name(f), fs) == Some(f)
  {
    hide Name, CaseEqual;
    if CaseEqual(Name(fs[0]), Name(f)) {
      NamesDiffer(fs[0], f);
    } else {
      SameCase(Name(f));
      NamedIn(f, fs[1..]);
    }
  }

  lemma {:induction false} SameCase(s: string)
    ensures CaseEqual(s, s)
  {
  }

  lemma {:induction false} InAll(f: Field)
    ensures f in ALL
  {
  }

  /*** From the text to the dictionary ***/

  // What the lines of the fields put into a dictionary.
  function Entries(e: Envelope, fs: seq<Field>, d: map<string, string>, c: SockText): map<string, string> {
    if fs == [] then d
    else
      var t := FieldText(e, fs[0], c);
      Entries(e, fs[1..], if t == "" then d else d[Name(fs[0]) := Trim(t)], c)
  }

  lemma {:induction false} OneLine(e: Envelope, f: Field, c: SockText)
    requires Valid(e) && GoodSock(c)
    ensures '\n' !in FieldText(e, f, c)
  {
    hide ShowValue, OfKind, KindOf, Signed, Get;
    ValueLine(Get(e, f), KindOf(f), c);
    SignedLine(VERSION_NUMBER);
  }

  lemma {:induction false} ValueLine(v: Value, k: Kind, c: SockText)
    requires OfKind(v, k) && GoodSock(c)
    ensures '\n' !in ShowValue(v, c)
  {
    hide Signed;
    if v.Num? {
      SignedLine(v.n);
    }
  }

  lemma {:induction false} LinesParse(e: Envelope, fs: seq<Field>, d: map<string, string>, c: SockText)
    requires Valid(e) && GoodSock(c)
    ensures ParseLines(Lines(e, fs, c), d) == Some(Entries(e, fs, d, c))
    decreases |fs|
  {
    hide FieldText, Name, ParseLine, Valid, GoodSock, Trim;
    if fs != [] {
      var f, rest := fs[0], Lines(e, fs[1..], c);
      var t := FieldText(e, f, c);
      if t == "" {
        assert "" + rest == rest;
        LinesParse(e, fs[1..], d, c);
      } else {
        OneLine(e, f, c);
        FieldChars(f);
        LineReadBack(Name(f), t);
        var line := Name(f) + ": " + t;
        NameLine(f);
        assert '\n' !in line;
        assert Lines(e, fs, c) == line + "\n" + rest;
        FirstLine(line, rest, d);
        LinesParse(e, fs[1..], d[Name(f) := Trim(t)], c);
      }
    }
  }

  lemma {:induction false} NameLine(f: Field)
    ensures '\n' !in Name(f)
  {
    hide Name;
    FieldChars(f);
  }

  // The dictionary has exactly the saved fields of fs, without leading blanks.
  ghost predicate Holds(e: Envelope, fs: seq<Field>, d: map<string, string>, c: SockText) {
    && (forall k :: k in d ==> exists f :: f in fs && FieldText(e, f, c) != "" && Name(f) == k)
    && (forall f :: f in fs && FieldText(e, f, c) != "" ==> Name(f) in d && d[Name(f)] == Trim(FieldText(e, f, c)))
  }

  lemma {:induction false} EntriesHold(e: Envelope, done: seq<Field>, fs: seq<Field>, d: map<string, string>, c: SockText)
    requires Holds(e, done, d, c)
    ensures Holds(e, done + fs, Entries(e, fs, d, c), c)
    decreases |fs|
  {
    hide Holds, FieldText, Name, Trim;
    if fs == [] {
      assert done + fs == done;
    } else {
      var f, t := fs[0], FieldText(e, fs[0], c);
      var d' := if t == "" then d else d[Name(f) := Trim(t)];
      HoldsOne(e, done, f, d, c);
      EntriesHold(e, done + [f], fs[1..], d', c);
      assert done + [f] + fs[1..] == done + fs;
    }
  }

  lemma {:induction false} HoldsOne(e: Envelope, done: seq<Field>, f: Field, d: map<string, string>, c: SockText)
    requires Holds(e, done, d, c)
    ensures Holds(e, done + [f], if FieldText(e, f, c) == "" then d else d[Name(f) := Trim(FieldText(e, f, c))], c)
  {
    hide FieldText, Name, Trim;
    var t := FieldText(e, f, c);
    var d' := if t == "" then d else d[Name(f) := Trim(t)];
    forall g | g in done + [f] && FieldText(e, g, c) != ""
      ensures Name(g) in d' && d'[Name(g)] == Trim(FieldText(e, g, c))
    {
      if Name(g) == Name(f) {
        SameName(g, f);
      }
    }
    forall k | k in d'
      ensures exists g :: g in done + [f] && FieldText(e, g, c) != "" && Name(g) == k
    {
      if k in d {
        var g :| g in done && FieldText(e, g, c) != "" && Name(g) == k;
        assert g in done + [f];
      } else {
        assert f in done + [f];
      }
    }
  }

  lemma {:induction false} SameName(f: Field, g: Field)
    requires Name(f) == Name(g)
    ensures f == g
  {
    hide Name;
    SameCase(Name(f));
    NamesDiffer(f, g);
  }

  /*** From the dictionary to the envelope ***/

  function ReadBack(e: Envelope, f: Field, c: SockText): Option<Value> {
    ReadValue(KindOf(f), Trim(FieldText(e, f, c)), c)
  }

  // All fields named in order can be read back.
  ghost predicate Readable(e: Envelope, order: seq<string>, c: SockText) {
    forall f :: Saved(e, f, c) && Name(f) in order ==> ReadBack(e, f, c).Some?
  }

  // An envelope after loading the fields named in order into x.
  ghost predicate Restores(e: Envelope, order: seq<string>, x: Envelope, y: Envelope, c: SockText) {
    forall f :: if Saved(e, f, c) && Name(f) in order then ReadBack(e, f, c) == Some(Get(y, f)) else Get(y, f) == Get(x, f)
  }

  // Whatever the order, the fields come back one by one.
  lemma {:induction false} FieldsLoad(e: Envelope, order: seq<string>, d: map<string, string>, x: Envelope, c: SockText)
    requires Holds(e, Order(e), d, c) && forall k :: k in order ==> k in d
    ensures LoadFields(order, d, x, c).Some? <==> Readable(e, order, c)
    ensures LoadFields(order, d, x, c).Some? ==> Restores(e, order, x, LoadFields(order, d, x, c).value, c)
    decreases |order|
  {
    hide Holds, FieldText, Name, Trim, Order, ReadValue, KindOf, CaseEqual, Named, Readable, Restores, ReadBack, Saved;
    if order == [] {
      LoadNone(e, x, c);
    } else {
      var k := order[0];
      var f := HeldField(e, d, k, c);
      InAll(f);
      NamedIn(f, ALL);
      assert order == [k] + order[1..];
      if ReadBack(e, f, c).Some? {
        var x' := x[f := ReadBack(e, f, c).value];
        FieldsLoad(e, order[1..], d, x', c);
        LoadOne(e, f, order[1..], x, c);
      } else {
        NotReadable(e, f, order, c);
      }
    }
  }

  lemma {:induction false} HeldField(e: Envelope, d: map<string, string>, k: string, c: SockText) returns (f: Field)
    requires Holds(e, Order(e), d, c) && k in d
    ensures Saved(e, f, c) && Name(f) == k && ReadValue(KindOf(f), d[k], c) == ReadBack(e, f, c)
  {
    hide FieldText, Name, Trim, Order, ReadValue, KindOf;
    f :| f in Order(e) && FieldText(e, f, c) != "" && Name(f) == k;
  }

  lemma {:induction false} LoadNone(e: Envelope, x: Envelope, c: SockText)
    ensures Readable(e, [], c) && Restores(e, [], x, x, c)
  {
  }

  lemma {:induction false} NotReadable(e: Envelope, f: Field, order: seq<string>, c: SockText)
    requires Saved(e, f, c) && Name(f) in order && ReadBack(e, f, c).None?
    ensures !Readable(e, order, c)
  {
  }

  lemma {:induction false} LoadOne(e: Envelope, f: Field, order: seq<string>, x: Envelope, c: SockText)
    requires Saved(e, f, c) && ReadBack(e, f, c).Some?
    ensures Readable(e, [Name(f)] + order, c) <==> Readable(e, order, c)
    ensures forall y :: Restores(e, order, x[f := ReadBack(e, f, c).value], y, c) ==> Restores(e, [Name(f)] + order, x, y, c)
  {
    hide Name, ReadBack, Saved, KindOf;
    forall g | Name(g) == Name(f)
      ensures g == f
    {
      SameName(g, f);
    }
    assert forall k :: k in [Name(f)] + order <==> k == Name(f) || k in order;
  }

  /*** Single values ***/

  // What reading does not change.
  predicate Clean(v: Value) {
    match v
    case Str(s) => s == "" || !IsSpace(s[0])
    case Num(n) => n >= 0
    case Mail(user, domain) => (user == "" || !IsSpace(user[0])) && '@' !in domain
    case _ => true
  }

  predicate IsSeparator(c: char) {
    c == ' ' || c == ',' || c == '|'
  }

  lemma {:induction false} FlagWord(w: string, rest: string, v: Value)
    requires v.Flags? && forall i :: 0 <= i < |w| ==> !IsSeparator(w[i])
    ensures ReadFlags(w, v) == ReadFlag(w, v)
    ensures ReadFlags(w + (" " + rest), v) == match ReadFlag(w, v) { case None => None case Some(u) => ReadFlags(rest, u) }
  {
    hide ReadFlag;
    var s := w + (" " + rest);
    FindIs(w, IsSeparator, |w|);
    assert w[..|w|] == w;
    assert forall i :: 0 <= i < |w| ==> s[i] == w[i];
    FindIs(s, IsSeparator, |w|);
    assert s[..|w|] == w && s[|w| + 1..] == rest;
  }

  lemma {:induction false} Words(v: Value)
    requires v.Flags?
    ensures ReadFlag("authenticated", v) == Some(v.(authenticated := true))
    ensures ReadFlag("bounce", v) == Some(v.(bounce := true))
    ensures ReadFlag("internal", v) == Some(v.(internal := true))
  {
    assert Lower("internal"[0]) != Lower("enqueued"[0]);
  }

  lemma {:induction false} TwoReadBack(v: Value, u: Value)
    requires v.Flags? && u.Flags? && ShowTwo(v) != "" && !u.bounce && !u.internal
    ensures ReadFlags(ShowTwo(v), u) == Some(u.(bounce := v.bounce, internal := v.internal)) && !IsSpace(ShowTwo(v)[0])
  {
    hide ReadFlags, ReadFlag;
    FlagWord("bounce", "internal", u);
    FlagWord("internal", "", u);
    FlagWord("internal", "", u.(bounce := true));
    Words(u);
    Words(u.(bounce := true));
  }

  lemma {:induction false} FlagsReadBack(v: Value)
    requires v.Flags? && ShowFlags(v) != ""
    ensures ReadFlags(ShowFlags(v), Flags(false, false, false)) == Some(v) && !IsSpace(ShowFlags(v)[0])
  {
    hide ReadFlags, ReadFlag, ShowTwo;
    var none := Flags(false, false, false);
    var u := if v.authenticated then none.(authenticated := true) else none;
    Words(none);
    if v.authenticated {
      FlagWord("authenticated", ShowTwo(v), none);
    }
    if ShowTwo(v) != "" {
      TwoReadBack(v, u);
    } else {
      NoneShown(v);
    }
  }

  lemma {:induction false} KnownFlags()
    ensures ShowFlags(Flags(true, false, false)) == "authenticated"
    ensures ShowFlags(Flags(false, true, true)) == "bounce internal"
    ensures ShowFlags(Flags(true, true, false)) == "authenticated bounce"
  {
  }

  lemma {:induction false} NoneShown(v: Value)
    requires v.Flags? && ShowTwo(v) == ""
    ensures !v.bounce && !v.internal
  {
  }

  lemma {:induction false} TypeReadBack(t: DeliveryType, c: SockText)
    ensures ReadType(ShowValue(Type(t), c)) == Some(Type(t))
  {
    assert Lower("mta"[1]) != Lower("mda"[1]);
  }

  // A value that is written is read back exactly if it is clean.
  lemma {:induction false} ValueReadBack(v: Value, k: Kind, c: SockText)
    requires OfKind(v, k) && GoodSock(c) && ShowValue(v, c) != ""
    ensures ReadValue(k, Trim(ShowValue(v, c)), c) == Some(v) <==> Clean(v)
  {
    hide ReadFlags, ShowFlags, Signed, StrToNum, ReadMail, ShowMail;
    match v
    case Str(s) =>
    case Num(n) =>
      NumberReadBack(n, 0, match k case UINT(max) => max case _ => TIME_MAX);
    case Mail(user, domain) =>
      MailReadBack(user, domain);
    case Sock(a) =>
    case Type(t) =>
      TypeReadBack(t, c);
    case Flags(_, _, _) =>
      FlagsReadBack(v);
    case Bounce(b) =>
    case Ret(r) =>
  }

  /*** Writing and reading ***/

  lemma {:induction false} VersionText(e: Envelope, c: SockText)
    ensures Saved(e, VERSION, c) && Trim(FieldText(e, VERSION, c)) == FieldText(e, VERSION, c) == Signed(VERSION_NUMBER)
    ensures ReadBack(e, VERSION, c) == Some(Num(VERSION_NUMBER)) && Name(VERSION) == "version"
    ensures StrToNum(FieldText(e, VERSION, c), 1, 64) == Some(VERSION_NUMBER)
  {
    hide Signed, StrToNum;
    NumberReadBack(VERSION_NUMBER, 1, 64);
    NumberReadBack(VERSION_NUMBER, 0, 0xffff_ffff);
    assert Order(e)[0] == VERSION;
  }

  // The dictionary made from a dump.
  lemma {:induction false} DumpParses(e: Envelope, c: SockText) returns (d: map<string, string>)
    requires Valid(e) && GoodSock(c)
    ensures ParseLines(Dump(e, c), map[]) == Some(d) && Holds(e, Order(e), d, c)
    ensures "version" in d && StrToNum(d["version"], 1, 64) == Some(VERSION_NUMBER)
  {
    hide FieldText, Name, Trim, Order, StrToNum, Signed, ParseLines, Lines, Entries, Valid, GoodSock;
    d := Entries(e, Order(e), map[], c);
    LinesParse(e, Order(e), map[], c);
    EntriesHold(e, [], Order(e), map[], c);
    assert [] + Order(e) == Order(e);
    VersionText(e, c);
  }

  // Loading a dump gives back every saved field, as it is read back, and zero for the others.
  // It fails exactly if the text is too long or a saved field cannot be read.
  lemma {:induction false} DumpLoads(e: Envelope, size: nat, order: map<string, string> -> seq<string>, c: SockText)
    requires Valid(e) && GoodSock(c) && forall d :: IsOrder(order(d), d)
    ensures var r := Load(Dump(e, c), size, order, c);
            && (r.Some? <==> |Dump(e, c)| < size && forall f :: Saved(e, f, c) ==> ReadBack(e, f, c).Some?)
            && (r.Some? ==> forall f :: if Saved(e, f, c) then ReadBack(e, f, c) == Some(Get(r.value, f)) else Get(r.value, f) == Zero(KindOf(f)))
  {
    hide FieldText, Name, Trim, Order, StrToNum, ParseLines, Dump, LoadFields, KindOf, ReadBack, Valid, GoodSock;
    var d := DumpParses(e, c);
    assert IsOrder(order(d), d);
    FieldsLoad(e, order(d), d, Blank(), c);
    AllNamed(e, order(d), d, c);
    VersionText(e, c);
  }

  lemma {:induction false} AllNamed(e: Envelope, order: seq<string>, d: map<string, string>, c: SockText)
    requires Holds(e, Order(e), d, c) && IsOrder(order, d)
    ensures forall f :: Saved(e, f, c) ==> Name(f) in order
  {
    hide FieldText, Name, Trim, Order;
  }

  // The fields that are not kept: those of another type of delivery, the delay and the time
  // to live of a bounce that is not about a delay, and a code without a class.
  predicate Lost(e: Envelope, f: Field) {
    if f in {MDA_EXEC, MDA_SUBADDRESS, MDA_USER} then Get(e, TYPE) != Type(MDA)
    else if f == BOUNCE_TYPE then Get(e, TYPE) != Type(BOUNCE)
    else if f in {BOUNCE_TTL, BOUNCE_DELAY} then Get(e, TYPE) != Type(BOUNCE) || Get(e, BOUNCE_TYPE) != Bounce(DELAYED)
    else f == ESC_CODE && Get(e, ESC_CLASS) == Num(0)
  }

  lemma {:induction false} KeptIsWritten(e: Envelope, f: Field, c: SockText)
    requires Valid(e) && GoodSock(c)
    ensures Saved(e, f, c) ==> !Lost(e, f)
    ensures !Lost(e, f) && !Saved(e, f, c) ==> Get(e, f) == Zero(KindOf(f))
  {
    hide ShowValue, Signed, Get, Zero, OfKind, Order, KindOf;
    if Lost(e, f) {
      NotWritten(e, f, c);
    } else {
      InOrder(e, f);
      if f == VERSION {
        VersionText(e, c);
      } else if !Saved(e, f, c) {
        ZeroClass();
        if f != ESC_CLASS || Get(e, ESC_CLASS) != Num(0) {
          EmptyIsZero(Get(e, f), KindOf(f), c);
        }
      }
    }
  }

  lemma {:induction false} NotWritten(e: Envelope, f: Field, c: SockText)
    requires Lost(e, f)
    ensures !Saved(e, f, c)
  {
    hide ShowValue, Signed, Get, Order;
    if f in Order(e) {
      OnlyOwn(e, f);
    }
  }

  // Fields of one type of delivery are dumped for that type only.
  lemma {:induction false} OnlyOwn(e: Envelope, f: Field)
    requires f in Order(e)
    ensures f in {MDA_EXEC, MDA_SUBADDRESS, MDA_USER} ==> Get(e, TYPE) == Type(MDA)
    ensures f in {BOUNCE_TTL, BOUNCE_DELAY, BOUNCE_TYPE} ==> Get(e, TYPE) == Type(BOUNCE)
  {
    hide Get;
    assert f in FIRST || f in SECOND || f in THIRD || f in Agent(e);
  }

  lemma {:induction false} ZeroClass()
    ensures Zero(KindOf(ESC_CLASS)) == Num(0)
  {
  }

  // Every field that is not lost is one of those that are dumped.
  lemma {:induction false} InOrder(e: Envelope, f: Field)
    requires !Lost(e, f)
    ensures f in Order(e)
  {
  }

  lemma {:induction false} EmptyIsZero(v: Value, k: Kind, c: SockText)
    requires OfKind(v, k) && GoodSock(c) && ShowValue(v, c) == ""
    ensures v == Zero(k)
  {
    hide Signed;
    if v.Num? {
      NumberReadBack(v.n, 0, 0);
    }
  }

  // Exactly when dumping and loading keeps every field that is not lost: no string, and no
  // user of an address, starts with a blank, no domain has an '@', no time is negative, the
  // version is the current one, and the text fits the buffer of the reader.
  lemma {:induction false} RoundTrip(e: Envelope, size: nat, order: map<string, string> -> seq<string>, c: SockText)
    requires Valid(e) && GoodSock(c) && forall d :: IsOrder(order(d), d)
    ensures var r := Load(Dump(e, c), size, order, c);
            r.Some? && (forall f :: Get(r.value, f) == if Lost(e, f) then Zero(KindOf(f)) else Get(e, f)) <==>
              |Dump(e, c)| < size && forall f :: !Lost(e, f) ==> if f == VERSION then Get(e, f) == Num(3) else Clean(Get(e, f))
  {
    hide Name, Trim, Order, Dump, Load, KindOf, ReadValue, ShowValue, Clean, OfKind, GoodSock, Get, FieldText, ReadBack, Saved, Lost, Zero, Valid;
    DumpLoads(e, size, order, c);
    VersionText(e, c);
    forall f: Field
      ensures (Saved(e, f, c) ==> !Lost(e, f)) && (!Lost(e, f) && !Saved(e, f, c) ==> Get(e, f) == Zero(KindOf(f)) && Clean(Get(e, f)))
      ensures Saved(e, f, c) && f != VERSION ==> (ReadBack(e, f, c) == Some(Get(e, f)) <==> Clean(Get(e, f)))
    {
      KeptIsWritten(e, f, c);
      CleanZero(KindOf(f));
      if Saved(e, f, c) && f != VERSION {
        FieldReadBack(e, f, c);
      }
    }
  }

  lemma {:induction false} CleanZero(k: Kind)
    ensures Clean(Zero(k))
  {
  }

  lemma {:induction false} FieldReadBack(e: Envelope, f: Field, c: SockText)
    requires Valid(e) && GoodSock(c) && Saved(e, f, c) && f != VERSION
    ensures ReadBack(e, f, c) == Some(Get(e, f)) <==> Clean(Get(e, f))
  {
    hide Name, Trim, Order, KindOf, ReadValue, ShowValue, Clean, OfKind, GoodSock, Get;
    ValueReadBack(Get(e, f), KindOf(f), c);
  }

  /*** The text ***/

  function TextLine(name: string, text: string): string {
    if text == "" then "" else name + ": " + text + "\n"
  }

  function StrText(v: Value): string {
    if v.Str? then v.s else ""
  }

  function NumText(v: Value): string {
    if v.Num? then Signed(v.n) else ""
  }

  function MailText(v: Value): string {
    if v.Mail? then v.user + "@" + v.domain else ""
  }

  // What stands in the file, line by line.
  function File(e: Envelope, c: SockText): seq<string> {
    Head(e) + (Middle(e, c) + (Tail(e) + AgentLines(e)))
  }

  function Head(e: Envelope): seq<string> {
    [TextLine("version", Signed(3)),
     TextLine("dispatcher", StrText(Get(e, DISPATCHER))),
     TextLine("tag", StrText(Get(e, TAG))),
     TextLine("type", if Get(e, TYPE) == Type(MDA) then "mda" else if Get(e, TYPE) == Type(MTA) then "mta" else "bounce"),
     TextLine("smtpname", StrText(Get(e, SMTPNAME))),
     TextLine("helo", StrText(Get(e, HELO))),
     TextLine("hostname", StrText(Get(e, HOSTNAME))),
     TextLine("username", StrText(Get(e, USERNAME)))]
  }

  function Middle(e: Envelope, c: SockText): seq<string> {
    [TextLine("errorline", StrText(Get(e, ERRORLINE))),
     TextLine("sockaddr", if Get(e, SOCKADDR).Sock? then c.show(Get(e, SOCKADDR).addr) else ""),
     TextLine("sender", MailText(Get(e, SENDER))),
     TextLine("rcpt", MailText(Get(e, RCPT))),
     TextLine("dest", MailText(Get(e, DEST))),
     TextLine("ctime", NumText(Get(e, CTIME))),
     TextLine("last-try", NumText(Get(e, LAST_TRY))),
     TextLine("last-bounce", NumText(Get(e, LAST_BOUNCE)))]
  }

  function Tail(e: Envelope): seq<string> {
    [TextLine("ttl", NumText(Get(e, TTL))),
     TextLine("retry", NumText(Get(e, RETRY))),
     TextLine("flags", if Get(e, FLAGS).Flags? then ShowFlags(Get(e, FLAGS)) else ""),
     TextLine("dsn-notify", NumText(Get(e, DSN_NOTIFY))),
     TextLine("dsn-ret", if Get(e, DSN_RET) == Ret(FULL) then "FULL" else if Get(e, DSN_RET) == Ret(HDRS) then "HDRS" else ""),
     TextLine("dsn-envid", StrText(Get(e, DSN_ENVID))),
     TextLine("dsn-orcpt", StrText(Get(e, DSN_ORCPT))),
     TextLine("esc-class", if Get(e, ESC_CLASS) == Num(0) then "" else NumText(Get(e, ESC_CLASS))),
     TextLine("esc-code", if Get(e, ESC_CLASS) == Num(0) then "" else NumText(Get(e, ESC_CODE)))]
  }

  function AgentLines(e: Envelope): seq<string> {
    if Get(e, TYPE) == Type(MDA) then
      [TextLine("mda-exec", StrText(Get(e, MDA_EXEC))),
       TextLine("mda-subaddress", StrText(Get(e, MDA_SUBADDRESS))),
       TextLine("mda-user", StrText(Get(e, MDA_USER)))]
    else if Get(e, TYPE) == Type(BOUNCE) then
      [TextLine("bounce-ttl", if Get(e, BOUNCE_TYPE) == Bounce(DELAYED) then NumText(Get(e, BOUNCE_TTL)) else ""),
       TextLine("bounce-delay", if Get(e, BOUNCE_TYPE) == Bounce(DELAYED) then NumText(Get(e, BOUNCE_DELAY)) else ""),
       TextLine("bounce-type", if Get(e, BOUNCE_TYPE) == Bounce(FAILED) then "failed"
                               else if Get(e, BOUNCE_TYPE) == Bounce(DELAYED) then "delayed" else "delivered")]
    else []
  }

  lemma {:induction false} LinesConcat(e: Envelope, a: seq<Field>, b: seq<Field>, c: SockText)
    ensures Lines(e, a + b, c) == Lines(e, a, c) + Lines(e, b, c)
  {
    hide Line;
    if a == [] {
      assert a + b == b;
    } else {
      assert (a + b)[1..] == a[1..] + b;
      LinesConcat(e, a[1..], b, c);
      Assoc(Line(e, a[0], c), Lines(e, a[1..], c), Lines(e, b, c));
    }
  }

  lemma {:induction false} LinesAre(e: Envelope, fs: seq<Field>, ss: seq<string>, c: SockText)
    requires |ss| == |fs| && forall i :: 0 <= i < |fs| ==> ss[i] == Line(e, fs[i], c)
    ensures Lines(e, fs, c) == Flatten(ss)
  {
    hide Line;
    if fs != [] {
      LinesAre(e, fs[1..], ss[1..], c);
    }
  }

  // A field with no guard is written as its value.
  predicate Unguarded(f: Field) {
    f !in {VERSION, BOUNCE_DELAY, BOUNCE_TTL, ESC_CLASS, ESC_CODE}
  }

  lemma {:induction false} StrLine(e: Envelope, f: Field, c: SockText)
    requires Valid(e) && Unguarded(f) && KindOf(f).STRING?
    ensures Line(e, f, c) == TextLine(Name(f), StrText(Get(e, f)))
  {
    hide Get, Name;
  }

  lemma {:induction false} NumLine(e: Envelope, f: Field, c: SockText)
    requires Valid(e) && Unguarded(f) && (KindOf(f).UINT? || KindOf(f).TIME?)
    ensures Line(e, f, c) == TextLine(Name(f), NumText(Get(e, f)))
  {
    hide Get, Name;
  }

  lemma {:induction false} MailLine(e: Envelope, f: Field, c: SockText)
    requires Valid(e) && Unguarded(f) && KindOf(f).MAIL?
    ensures Line(e, f, c) == TextLine(Name(f), MailText(Get(e, f)))
  {
    hide Get, Name;
  }

  lemma {:induction false} OtherLines(e: Envelope, c: SockText)
    requires Valid(e)
    ensures Line(e, TYPE, c) == TextLine("type", if Get(e, TYPE) == Type(MDA) then "mda" else if Get(e, TYPE) == Type(MTA) then "mta" else "bounce")
    ensures Line(e, SOCKADDR, c) == TextLine("sockaddr", if Get(e, SOCKADDR).Sock? then c.show(Get(e, SOCKADDR).addr) else "")
    ensures Line(e, FLAGS, c) == TextLine("flags", if Get(e, FLAGS).Flags? then ShowFlags(Get(e, FLAGS)) else "")
  {
    hide Get, ShowFlags;
    assert OfKind(Get(e, TYPE), KindOf(TYPE)) && OfKind(Get(e, SOCKADDR), KindOf(SOCKADDR)) && OfKind(Get(e, FLAGS), KindOf(FLAGS));
  }

  lemma {:induction false} RetLine(e: Envelope, c: SockText)
    requires Valid(e)
    ensures Line(e, DSN_RET, c) ==
              TextLine("dsn-ret", if Get(e, DSN_RET) == Ret(FULL) then "FULL" else if Get(e, DSN_RET) == Ret(HDRS) then "HDRS" else "")
  {
    hide Get;
    assert OfKind(Get(e, DSN_RET), KindOf(DSN_RET));
  }

  lemma {:induction false} VersionLine(e: Envelope, c: SockText)
    ensures Line(e, VERSION, c) == TextLine("version", Signed(3))
  {
    hide Signed;
  }

  lemma {:induction false} EscLines(e: Envelope, c: SockText)
    requires Valid(e)
    ensures Line(e, ESC_CLASS, c) == TextLine("esc-class", if Get(e, ESC_CLASS) == Num(0) then "" else NumText(Get(e, ESC_CLASS)))
    ensures Line(e, ESC_CODE, c) == TextLine("esc-code", if Get(e, ESC_CLASS) == Num(0) then "" else NumText(Get(e, ESC_CODE)))
  {
    hide Signed, Get;
    assert OfKind(Get(e, ESC_CLASS), KindOf(ESC_CLASS)) && OfKind(Get(e, ESC_CODE), KindOf(ESC_CODE));
  }

  lemma {:induction false} BounceLines(e: Envelope, c: SockText)
    requires Valid(e)
    ensures Line(e, BOUNCE_TTL, c) == TextLine("bounce-ttl", if Get(e, BOUNCE_TYPE) == Bounce(DELAYED) then NumText(Get(e, BOUNCE_TTL)) else "")
    ensures Line(e, BOUNCE_DELAY, c) == TextLine("bounce-delay", if Get(e, BOUNCE_TYPE) == Bounce(DELAYED) then NumText(Get(e, BOUNCE_DELAY)) else "")
    ensures Line(e, BOUNCE_TYPE, c) == TextLine("bounce-type", if Get(e, BOUNCE_TYPE) == Bounce(FAILED) then "failed"
                                                               else if Get(e, BOUNCE_TYPE) == Bounce(DELAYED) then "delayed" else "delivered")
  {
    hide Signed, Get;
    assert OfKind(Get(e, BOUNCE_TYPE), KindOf(BOUNCE_TYPE));
    assert OfKind(Get(e, BOUNCE_TTL), KindOf(BOUNCE_TTL)) && OfKind(Get(e, BOUNCE_DELAY), KindOf(BOUNCE_DELAY));
  }

  lemma {:induction false} HeadLines(e: Envelope, c: SockText)
    requires Valid(e)
    ensures Lines(e, FIRST, c) == Flatten(Head(e))
  {
    hide Lines, Signed, Get, Valid, Line, TextLine, Flatten, StrText;
    VersionLine(e, c);
    OtherLines(e, c);
    StrLine(e, DISPATCHER, c);
    StrLine(e, TAG, c);
    StrLine(e, SMTPNAME, c);
    StrLine(e, HELO, c);
    StrLine(e, HOSTNAME, c);
    StrLine(e, USERNAME, c);
    LinesAre(e, FIRST, Head(e), c);
  }

  lemma {:induction false} MiddleLines(e: Envelope, c: SockText)
    requires Valid(e)
    ensures Lines(e, SECOND, c) == Flatten(Middle(e, c))
  {
    hide Lines, Signed, Get, Valid, Line, TextLine, Flatten, StrText, MailText, NumText;
    StrLine(e, ERRORLINE, c);
    OtherLines(e, c);
    MailLine(e, SENDER, c);
    MailLine(e, RCPT, c);
    MailLine(e, DEST, c);
    NumLine(e, CTIME, c);
    NumLine(e, LAST_TRY, c);
    NumLine(e, LAST_BOUNCE, c);
    LinesAre(e, SECOND, Middle(e, c), c);
  }

  lemma {:induction false} TailLines(e: Envelope, c: SockText)
    requires Valid(e)
    ensures Lines(e, THIRD, c) == Flatten(Tail(e))
  {
    hide Lines, Signed, Get, Valid, Line, TextLine, ShowFlags, Flatten, StrText, NumText;
    NumLine(e, TTL, c);
    NumLine(e, RETRY, c);
    OtherLines(e, c);
    NumLine(e, DSN_NOTIFY, c);
    RetLine(e, c);
    StrLine(e, DSN_ENVID, c);
    StrLine(e, DSN_ORCPT, c);
    EscLines(e, c);
    LinesAre(e, THIRD, Tail(e), c);
  }

  lemma {:induction false} AgentLinesAre(e: Envelope, c: SockText)
    requires Valid(e)
    ensures Lines(e, Agent(e), c) == Flatten(AgentLines(e))
  {
    hide Lines, Signed, Get, Valid, Line, TextLine, Flatten, StrText, NumText;
    BounceLines(e, c);
    StrLine(e, MDA_EXEC, c);
    StrLine(e, MDA_SUBADDRESS, c);
    StrLine(e, MDA_USER, c);
    LinesAre(e, Agent(e), AgentLines(e), c);
  }

  // The dump is that file.
  lemma {:induction false} DumpText(e: Envelope, c: SockText)
    requires Valid(e)
    ensures Dump(e, c) == Flatten(File(e, c))
  {
    hide Lines, Flatten, Valid, Head, Middle, Tail, AgentLines, Agent, FIRST, SECOND, THIRD;
    HeadLines(e, c);
    MiddleLines(e, c);
    TailLines(e, c);
    AgentLinesAre(e, c);
    LinesConcat(e, FIRST, SECOND + (THIRD + Agent(e)), c);
    LinesConcat(e, SECOND, THIRD + Agent(e), c);
    LinesConcat(e, THIRD, Agent(e), c);
    FlattenConcat(Head(e), Middle(e, c) + (Tail(e) + AgentLines(e)));
    FlattenConcat(Middle(e, c), Tail(e) + AgentLines(e));
    FlattenConcat(Tail(e), AgentLines(e));
  }

  /*** The code ***/

  lemma {:induction false} LinesAppend(e: Envelope, fs: seq<Field>, f: Field, c: SockText)
    ensures Lines(e, fs + [f], c) == Lines(e, fs, c) + Line(e, f, c)
  {
    hide Line;
    if fs == [] {
      assert [f][1..] == [] && Lines(e, [], c) == "";
      assert fs + [f] == [f] && Line(e, f, c) + "" == "" + Line(e, f, c);
    } else {
      assert (fs + [f])[1..] == fs[1..] + [f];
      LinesAppend(e, fs[1..], f, c);
    }
  }

  // envelope_dump_buffer: the dump, if it fits with a terminator.
  method DumpBuffer(e: Envelope, size: nat, c: SockText) returns (dest: Option<string>)
    ensures dest == if |Dump(e, c)| < size then Some(Dump(e, c)) else None
  {
    hide FieldText, Name, Order;
    var fs := Order(e);
    dest := Some("");
    for k := 0 to |fs|
      invariant dest == if Lines(e, fs[..k], c) == "" || |Lines(e, fs[..k], c)| < size then Some(Lines(e, fs[..k], c)) else None
    {
      LinesAppend(e, fs[..k], fs[k], c);
      assert fs[..k + 1] == fs[..k] + [fs[k]];
      assert Lines(e, fs[..k], c) + "" == Lines(e, fs[..k], c);
      if dest.Some? {
        var buf := FieldText(e, fs[k], c);
        if buf != "" {
          var line := Name(fs[k]) + ": " + buf + "\n";
          if |line| >= size - |dest.value| {
            dest := None;
          } else {
            dest := Some(dest.value + line);
          }
        }
      }
    }
    assert fs[..|fs|] == fs;
    NotEmpty(e, c);
  }

  lemma {:induction false} NotEmpty(e: Envelope, c: SockText)
    ensures Dump(e, c) != ""
  {
    hide FieldText, Name;
    VersionText(e, c);
    assert Order(e)[0] == VERSION;
  }

  // envelope_buffer_to_dict
  method BufferToDict(text: string, size: nat) returns (d: Option<map<string, string>>)
    ensures d == if |text| < size then ParseLines(text, map[]) else None
  {
    hide ParseLine;
    if |text| >= size { return None; }
    var buf, m := text, map[];
    while buf != ""
      invariant ParseLines(buf, m) == ParseLines(text, map[])
      decreases |buf|
    {
      var len := Find(buf, IsNewline);
      match ParseLine(buf[..len])
      case None =>
        return None;
      case Some(e) =>
        if len == |buf| { return None; }
        buf, m := buf[len + 1..], m[e.0 := e.1];
    }
    d := Some(m);
  }

  // envelope_load_buffer
  method LoadBuffer(text: string, size: nat, order: map<string, string> -> seq<string>, c: SockText) returns (r: Option<Envelope>)
    requires forall d :: IsOrder(order(d), d)
    ensures r == Load(text, size, order, c)
  {
    hide ParseLines, ReadValue, KindOf, Named, StrToNum;
    var p := BufferToDict(text, size);
    if p.None? { return None; }
    var d := p.value;
    if "version" !in d { return None; }
    if StrToNum(d["version"], 1, 64) != Some(VERSION_NUMBER) { return None; }
    var e, keys := Blank(), order(d);
    assert IsOrder(keys, d);
    var k := 0;
    while k < |keys|
      invariant k <= |keys| && LoadFields(keys, d, Blank(), c) == LoadFields(keys[k..], d, e, c)
    {
      assert keys[k..][0] == keys[k] && keys[k..][1..] == keys[k + 1..];
      var f := Named(keys[k], ALL);
      if f.None? { return None; }
      var v := ReadValue(KindOf(f.value), d[keys[k]], c);
      if v.None? { return None; }
      e := e[f.value := v.value];
      k := k + 1;
    }
    r := Some(e[VERSION := Num(VERSION_NUMBER)]);
  }
}
