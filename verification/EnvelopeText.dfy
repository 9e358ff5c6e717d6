/** The pieces of an envelope's text form (usr.sbin/smtpd/envelope.c and to.c): lines of a
    name and a value, numbers, mail addresses and flags. */
module EnvelopeText {
  import opened Common

  /*** Characters ***/

  predicate IsSpace(c: char) {
    c == ' ' || '\t' <= c <= '\r'
  }

  predicate IsDigit(c: char) {
    '0' <= c <= '9'
  }

  predicate IsNameChar(c: char) {
    IsDigit(c) || 'a' <= c <= 'z' || 'A' <= c <= 'Z' || c == '-'
  }

  predicate NoNameChar(c: char) {
    !IsNameChar(c)
  }

  predicate IsNewline(c: char) {
    c == '\n'
  }

  function Lower(c: char): char {
    if 'A' <= c <= 'Z' then (c as int + 32) as char else c
  }

  // strcasecmp(a, b) == 0
  predicate CaseEqual(a: string, b: string) {
    |a| == |b| && forall i :: 0 <= i < |a| ==> Lower(a[i]) == Lower(b[i])
  }

  // The first position at which p holds.
  function Find(s: string, p: char -> bool): (i: nat)
    ensures i <= |s| && (i < |s| ==> p(s[i])) && forall j :: 0 <= j < i ==> !p(s[j])
  {
    if s == [] || p(s[0]) then 0 else 1 + Find(s[1..], p)
  }

  lemma {:induction false} FindIs(s: string, p: char -> bool, i: nat)
    requires i <= |s| && (i < |s| ==> p(s[i])) && forall j :: 0 <= j < i ==> !p(s[j])
    ensures Find(s, p) == i
  {
    assert !(Find(s, p) < i) && !(i < Find(s, p));
  }

  // A string without its leading blanks.
  function Trim(s: string): (t: string)
    ensures |t| <= |s| && (t != [] ==> !IsSpace(t[0])) && (s == [] || !IsSpace(s[0]) ==> t == s)
    ensures s != [] && IsSpace(s[0]) ==> |t| < |s|
  {
    if s != [] && IsSpace(s[0]) then Trim(s[1..]) else s
  }

  /*** Lines ***/

  // One line of envelope_buffer_to_dict: a name, blanks, a colon, blanks, and the value.
  function ParseLine(line: string): Option<(string, string)> {
    var n := Find(line, NoNameChar);
    if n == |line| then None
    else
      var rest := Trim(line[n..]);
      if rest == [] || rest[0] != ':' then None else Some((line[..n], Trim(rest[1..])))
  }

  // A line as it is written is read back, but for blanks at the start of the value.
  lemma {:induction false} LineReadBack(name: string, value: string)
    requires forall i :: 0 <= i < |name| ==> IsNameChar(name[i])
    ensures ParseLine(name + ": " + value) == Some((name, Trim(value)))
  {
    var line := name + ": " + value;
    assert forall i :: 0 <= i < |name| ==> line[i] == name[i];
    FindIs(line, NoNameChar, |name|);
    assert line[|name|..] == ": " + value && line[..|name|] == name;
    assert (": " + value)[1..] == " " + value;
    assert (" " + value)[1..] == value;
  }

  ghost predicate Blanks(s: string) {
    forall i :: 0 <= i < |s| ==> IsSpace(s[i])
  }

  lemma {:induction false} TrimSplits(s: string) returns (b: string)
    ensures Blanks(b) && s == b + Trim(s)
  {
    if s != [] && IsSpace(s[0]) {
      b := TrimSplits(s[1..]);
      b := [s[0]] + b;
    } else {
      b := [];
    }
  }

  lemma {:induction false} TrimIs(b: string, t: string)
    requires Blanks(b) && (t == [] || !IsSpace(t[0]))
    ensures Trim(b + t) == t
  {
    if b == [] {
      assert b + t == t;
    } else {
      assert (b + t)[1..] == b[1..] + t;
      TrimIs(b[1..], t);
    }
  }

  ghost predicate IsLine(line: string, name: string, b: string, c: string, value: string) {
    && (forall i :: 0 <= i < |name| ==> IsNameChar(name[i])) && (value == [] || !IsSpace(value[0])) && Blanks(b) && Blanks(c)
    && line == name + (b + (":" + (c + value)))
  }

  // What a line is: a name, then a colon with any blanks around it, then the value.
  lemma {:induction false} LineMeaning(line: string, name: string, value: string)
    ensures ParseLine(line) == Some((name, value)) <==> exists b, c :: IsLine(line, name, b, c, value)
  {
    hide ParseLine, IsLine;
    if ParseLine(line) == Some((name, value)) {
      LineFrom(line, name, value);
    }
    if b, c :| IsLine(line, name, b, c, value) {
      LineOf(line, name, value, b, c);
    }
  }

  lemma {:induction false} LineFrom(line: string, name: string, value: string)
    requires ParseLine(line) == Some((name, value))
    ensures exists b, c :: IsLine(line, name, b, c, value)
  {
    hide Find, Trim, Blanks;
    var n := Find(line, NoNameChar);
    var rest := Trim(line[n..]);
    var b := TrimSplits(line[n..]);
    var c := TrimSplits(rest[1..]);
    assert rest == ":" + (c + value);
    assert line == name + line[n..];
    assert IsLine(line, name, b, c, value);
  }

  lemma {:induction false} LineOf(line: string, name: string, value: string, b: string, c: string)
    requires IsLine(line, name, b, c, value)
    ensures ParseLine(line) == Some((name, value))
  {
    var t := ":" + (c + value);
    assert line[..|name|] == name && line[|name|..] == b + t;
    assert forall i :: 0 <= i < |name| ==> line[i] == name[i];
    assert NoNameChar((b + t)[0]);
    assert line[|name|] == (b + t)[0];
    FindIs(line, NoNameChar, |name|);
    TrimIs(b, t);
    assert t[1..] == c + value;
    TrimIs(c, value);
  }

  // envelope_buffer_to_dict: all lines; a later one of the same name counts. Without a final
  // newline the count of what is left wraps around, and the zeros behind do not make a line.
  function ParseLines(s: string, d: map<string, string>): Option<map<string, string>>
    decreases |s|
  {
    if s == [] then Some(d)
    else
      var n := Find(s, IsNewline);
      match ParseLine(s[..n])
      case None => None
      case Some(e) => if n == |s| then None else ParseLines(s[n + 1..], d[e.0 := e.1])
  }

  lemma {:induction false} FirstLine(line: string, rest: string, d: map<string, string>)
    requires '\n' !in line
    ensures ParseLines(line + "\n" + rest, d) ==
              match ParseLine(line) { case None => None case Some(e) => ParseLines(rest, d[e.0 := e.1]) }
  {
    var s := line + "\n" + rest;
    assert forall i :: 0 <= i < |line| ==> s[i] == line[i] && line[i] in line;
    FindIs(s, IsNewline, |line|);
    assert s[..|line|] == line && s[|line| + 1..] == rest;
  }

  // Text that does not end with a newline is refused.
  lemma {:induction false} NoFinalNewline(s: string, d: map<string, string>)
    requires s != [] && s[|s| - 1] != '\n'
    ensures ParseLines(s, d) == None
    decreases |s|
  {
    hide ParseLine;
    var n := Find(s, IsNewline);
    if n < |s| && ParseLine(s[..n]).Some? {
      var e := ParseLine(s[..n]).value;
      assert n < |s| - 1;
      NoFinalNewline(s[n + 1..], d[e.0 := e.1]);
    }
  }

  /*** Numbers ***/

  function DigitOf(n: nat): char
    requires n < 10
  {
    ('0' as int + n) as char
  }

  function Decimal(n: nat): (s: string)
    ensures s != [] && forall i :: 0 <= i < |s| ==> IsDigit(s[i])
  {
    if n < 10 then [DigitOf(n)] else Decimal(n / 10) + [DigitOf(n % 10)]
  }

  // "%d", "%lld"
  function Signed(n: int): (s: string) {
    if n < 0 then "-" + Decimal(-n) else Decimal(n)
  }

  function DigitsValue(s: string): int
    requires forall i :: 0 <= i < |s| ==> IsDigit(s[i])
  {
    if s == [] then 0 else DigitsValue(s[..|s| - 1]) * 10 + (s[|s| - 1] as int - '0' as int)
  }

  lemma {:induction false} DecimalValue(n: nat)
    ensures DigitsValue(Decimal(n)) == n
  {
    if n < 10 {
      assert [DigitOf(n)][..0] == [];
    } else {
      var s := Decimal(n / 10);
      assert (s + [DigitOf(n % 10)])[..|s|] == s;
      DecimalValue(n / 10);
    }
  }

  lemma {:induction false} KnownDecimals()
    ensures Decimal(0) == "0" && Decimal(7) == "7" && Decimal(42) == "42" && Decimal(1024) == "1024" && Signed(-5) == "-5"
  {
    assert Decimal(4) == "4" && Decimal(10) == "10" && Decimal(102) == "102";
  }

  // strtonum: blanks, a sign, digits to the end, and a value between the limits.
  function StrToNum(s: string, min: int, max: int): Option<int> {
    var t := Trim(s);
    var neg := t != [] && t[0] == '-';
    var u := if t != [] && (t[0] == '-' || t[0] == '+') then t[1..] else t;
    if u == [] || exists i :: 0 <= i < |u| && !IsDigit(u[i]) then None
    else
      var v: int := if neg then -DigitsValue(u) else DigitsValue(u);
      if min <= v <= max then Some(v) else None
  }

  // A number that is written is read back exactly if it is within the limits.
  lemma {:induction false} NumberReadBack(n: int, min: int, max: int)
    ensures Signed(n) != [] && !IsSpace(Signed(n)[0])
    ensures StrToNum(Signed(n), min, max) == if min <= n <= max then Some(n) else None
  {
    hide Decimal, DigitsValue;
    if n < 0 {
      DecimalValue(-n);
      assert Signed(n)[1..] == Decimal(-n);
    } else {
      DecimalValue(n);
      assert IsDigit(Decimal(n)[0]);
    }
  }

  lemma {:induction false} SignedLine(n: int)
    ensures '\n' !in Signed(n)
  {
    hide Decimal;
    var d := Decimal(if n < 0 then -n else n);
    assert forall i :: 0 <= i < |d| ==> IsDigit(d[i]);
  }

  /*** Mail addresses ***/

  const LINE_MAX: nat := 2048
  const PART_SIZE: nat := 256

  // The last '@', or the length.
  function LastAt(s: string): (i: nat)
    ensures i <= |s| && (i < |s| ==> s[i] == '@') && forall j :: i < j < |s| ==> s[j] != '@'
    ensures i == |s| ==> '@' !in s
  {
    if s == [] then 0
    else if s[|s| - 1] == '@' then |s| - 1
    else
      var i := LastAt(s[..|s| - 1]);
      if i == |s| - 1 then |s| else i
  }

  // text_to_mailaddr: user and domain
  function ReadMail(s: string): Option<(string, string)> {
    var i := LastAt(s);
    var user, domain := s[..i], if i == |s| then [] else s[i + 1..];
    if |s| < LINE_MAX && |user| < PART_SIZE && |domain| < PART_SIZE then Some((user, domain)) else None
  }

  function ShowMail(user: string, domain: string): (s: string)
    ensures s != []
  {
    user + "@" + domain
  }

  // An address that is written is read back exactly if the user does not start with a blank
  // and the domain has no '@'.
  lemma {:induction false} MailReadBack(user: string, domain: string)
    requires |user| < PART_SIZE && |domain| < PART_SIZE
    ensures ReadMail(Trim(ShowMail(user, domain))) == Some((user, domain)) <==> (user == [] || !IsSpace(user[0])) && '@' !in domain
  {
    var s := ShowMail(user, domain);
    if user != [] && IsSpace(user[0]) {
      assert s[|user|] == '@';
      TrimKeeps(s, '@');
      Shorter(Trim(s), user, domain);
    } else {
      assert Trim(s) == s;
      var i := LastAt(s);
      assert s[|user|] == '@';
      if '@' !in domain {
        assert forall j :: |user| < j < |s| ==> s[j] == domain[j - |user| - 1];
        assert i == |user|;
        assert s[..i] == user && s[i + 1..] == domain;
      } else {
        var k :| 0 <= k < |domain| && domain[k] == '@';
        assert s[|user| + 1 + k] == '@';
        assert i > |user|;
      }
    }
  }

  lemma {:induction false} TrimKeeps(s: string, c: char)
    requires c in s && !IsSpace(c)
    ensures c in Trim(s)
  {
    if IsSpace(s[0]) {
      TrimKeeps(s[1..], c);
    }
  }

  // What is shorter than user and domain together with a separator is not read as them.
  lemma {:induction false} Shorter(t: string, user: string, domain: string)
    requires |t| < |user| + 1 + |domain| && '@' in t
    ensures ReadMail(t) != Some((user, domain))
  {
  }
}
