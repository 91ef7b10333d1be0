/** Reading identifiers from their short text form, and when that form is faithful. */
module JidText {
  import opened Wrappers
  import opened Jids
  import Decimal

  // --- integers in text ------------------------------------------------------------------

  predicate IsDigit(c: char) {
    '0' <= c <= '9'
  }

  predicate IsSpace(c: char) {
    c == ' ' || 9 <= c as int <= 13
  }

  function StripLeft(s: string): string {
    if s != "" && IsSpace(s[0]) then StripLeft(s[1..]) else s
  }

  function StripRight(s: string): string {
    if s != "" && IsSpace(s[|s| - 1]) then StripRight(s[..|s| - 1]) else s
  }

  /** Digits, with single underscores allowed between them; `due` when a digit must come next. */
  function Digits(s: string, value: nat, due: bool): Option<nat>
    decreases |s|
  {
    if s == "" then if due then None else Some(value)
    else if IsDigit(s[0]) then Digits(s[1..], value * 10 + (s[0] as int - '0' as int), false)
    else if s[0] == '_' && !due then Digits(s[1..], value, true)
    else None
  }

  /** The integer a text spells: surrounding blanks and a sign are allowed. */
  function IntOf(s: string): Option<int> {
    var t := StripRight(StripLeft(s));
    if t == "" then None
    else
      var signed := t[0] == '-' || t[0] == '+';
      var n := Digits(if signed then t[1..] else t, 0, true);
      if n.None? then None else Some(if t[0] == '-' then -(n.value as int) else n.value as int)
  }

  lemma {:induction false} DigitsMore(s: string, value: nat, due: bool, c: char)
    requires IsDigit(c) && forall i :: 0 <= i < |s| ==> IsDigit(s[i])
    requires s != ""
    ensures Digits(s, value, due).Some?
    ensures Digits(s + [c], value, due) == Some(Digits(s, value, due).value * 10 + (c as int - '0' as int))
    decreases |s|
  {
    assert (s + [c])[1..] == s[1..] + [c];
    var next := value * 10 + (s[0] as int - '0' as int);
    if |s| == 1 {
      assert s[1..] == "" && [c][1..] == "";
      assert Digits([c], next, false) == Digits("", next * 10 + (c as int - '0' as int), false);
    } else {
      DigitsMore(s[1..], next, false, c);
    }
  }

  lemma {:induction false} DigitsOfNatural(n: nat)
    ensures var s := Decimal.Natural(n);
            s != "" && (forall i :: 0 <= i < |s| ==> IsDigit(s[i])) && Digits(s, 0, true) == Some(n)
    decreases n
  {
    if n < 10 {
      assert [Decimal.Digit(n)][1..] == "";
      assert Digits([Decimal.Digit(n)], 0, true) == Digits("", n, false);
    } else {
      DigitsOfNatural(n / 10);
      DigitsMore(Decimal.Natural(n / 10), 0, true, Decimal.Digit(n % 10));
    }
  }

  /** Formatted integers read back, and hold none of the separators. */
  lemma IntOfText(n: int)
    ensures IntOf(Decimal.Text(n)) == Some(n)
    ensures forall c :: c in Decimal.Text(n) ==> IsDigit(c) || c == '-'
  {
    hide Digits, Decimal.Natural;
    DigitsOfNatural(if n < 0 then -n else n);
    var s := Decimal.Text(n);
    assert StripRight(StripLeft(s)) == s;
    if n < 0 {
      assert s[1..] == Decimal.Natural(-n);
    }
  }

  // --- the short form -----------------------------------------------------------------------

  /** Position of the first `c`, or the length. */
  function First(s: string, c: char): (i: nat)
    ensures i <= |s| && (forall k :: 0 <= k < i ==> s[k] != c) && (i < |s| ==> s[i] == c)
  {
    if s == "" || s[0] == c then 0 else
    var i := First(s[1..], c);
    assert forall k :: 1 <= k < |s| ==> s[k] == s[1..][k - 1];
    i + 1
  }

  /** Position of the last `c`, or -1. */
  function Last(s: string, c: char): (i: int)
    ensures -1 <= i < |s| && (i >= 0 ==> s[i] == c) && forall k :: i < k < |s| ==> s[k] != c
  {
    if s == "" then -1
    else if s[|s| - 1] == c then |s| - 1
    else Last(s[..|s| - 1], c)
  }

  /** An agent suffix is recognised behind the last dot, on every server but the phone-number one. */
  function AgentOf(user: string, server: string): Option<int> {
    var dot := Last(user, '.');
    if dot >= 0 && server != DEFAULT_USER_SERVER then IntOf(user[dot + 1..]) else None
  }

  /** The identifier a text names; Err is the error of a device that is no integer. */
  function Parse(s: string): Result<JID> {
    var at := First(s, '@');
    if at == |s| then Ok(JID("", s, 0, 0, 0))
    else
      var part, server := s[..at], s[at + 1..];
      var colon := First(part, ':');
      var device := if colon == |part| then Some(0) else IntOf(part[colon + 1..]);
      if device.None? then Err
      else
        var user := part[..colon];
        match AgentOf(user, server)
        case Some(agent) => Ok(JID(user[..Last(user, '.')], server, agent, device.value, 0))
        case None => Ok(JID(user, server, 0, device.value, 0))
  }

  /** When the short form says everything: read off the identifier alone. */
  predicate Faithful(j: JID) {
    && j.integrator == 0
    && (if j.user == "" then '@' !in j.server && j.agent == 0 && j.device == 0
        else
          && '@' !in j.user && ':' !in j.user
          && (if j.agent != 0 then j.server != DEFAULT_USER_SERVER else AgentOf(j.user, j.server).None?))
  }

  function UserPart(j: JID): string {
    j.user + (if j.agent != 0 then "." + Decimal.Text(j.agent) else "")
  }

  function DevicePart(j: JID): string {
    if j.device != 0 then ":" + Decimal.Text(j.device) else ""
  }

  lemma FirstOfSplit(a: string, c: char, b: string)
    requires c !in a
    ensures First(a + [c] + b, c) == |a|
    ensures (a + [c] + b)[..|a|] == a && (a + [c] + b)[|a| + 1..] == b
  {
    var s := a + [c] + b;
    assert s[|a|] == c;
    assert forall i :: 0 <= i < |a| ==> s[i] == a[i];
  }

  lemma OnlyLast(s: string, c: char, i: nat)
    requires i < |s| && s[i] == c && forall k :: i < k < |s| ==> s[k] != c
    ensures Last(s, c) == i
  {
    var at := Last(s, c);
  }

  lemma LastOfSplit(a: string, c: char, b: string)
    requires c !in b
    ensures Last(a + [c] + b, c) == |a|
    ensures (a + [c] + b)[..|a|] == a && (a + [c] + b)[|a| + 1..] == b
  {
    hide Last;
    var s := a + [c] + b;
    Halves(a, c, b);
    forall i | |a| < i < |s| ensures s[i] != c {
      assert s[i] == s[|a| + 1..][i - |a| - 1];
    }
    OnlyLast(s, c, |a|);
  }

  lemma Halves(a: string, c: char, b: string)
    ensures var s := a + [c] + b; s[|a|] == c && s[..|a|] == a && s[|a| + 1..] == b
  {
    assert |a + [c]| == |a| + 1;
    assert (a + [c] + b)[|a| + 1..] == b;
    assert (a + [c] + b)[..|a|] == a;
  }

  /** Splitting a short form whose user holds no separator gives its parts back. */
  lemma SplitsBack(j: JID)
    requires j.user != "" && '@' !in j.user && ':' !in j.user
    ensures Parse(j.Str()) == match AgentOf(UserPart(j), j.server)
                              case Some(agent) =>
                                Ok(JID(UserPart(j)[..Last(UserPart(j), '.')], j.server, agent, j.device, 0))
                              case None => Ok(JID(UserPart(j), j.server, 0, j.device, 0))
  {
    hide IntOf, Decimal.Text, AgentOf;
    IntOfText(j.agent);
    IntOfText(j.device);
    var u, d := UserPart(j), DevicePart(j);
    assert '@' !in u && ':' !in u && '@' !in d;
    assert j.Str() == u + d + "@" + j.server;
    FirstOfSplit(u + d, '@', j.server);
    if j.device != 0 {
      assert u + d == u + ":" + Decimal.Text(j.device);
      FirstOfSplit(u, ':', Decimal.Text(j.device));
    } else {
      assert u + d == u;
      assert First(u, ':') == |u|;
    }
  }

  /** Reading the short form gives the identifier back exactly when it is faithful. */
  lemma ParseOfStr(j: JID)
    ensures Parse(j.Str()) == Ok(j) <==> Faithful(j)
  {
    hide IntOf, Decimal.Text;
    if j.user == "" {
      NamelessForm(j);
    } else if '@' in j.user || ':' in j.user {
      EarlySplit(j);
    } else {
      SplitsBack(j);
      IntOfText(j.agent);
      if j.agent != 0 {
        assert UserPart(j) == j.user + "." + Decimal.Text(j.agent);
        LastOfSplit(j.user, '.', Decimal.Text(j.agent));
      } else {
        assert UserPart(j) == j.user;
      }
    }
  }

  lemma NamelessForm(j: JID)
    requires j.user == ""
    ensures Parse(j.Str()) == Ok(j) <==> Faithful(j)
  {
    hide IntOf;
    var at := First(j.server, '@');
    if at < |j.server| {
      assert |j.server[at + 1..]| < |j.server|;
    }
  }

  /** A separator inside the user cuts it short. */
  lemma EarlySplit(j: JID)
    requires j.user != "" && ('@' in j.user || ':' in j.user)
    ensures Parse(j.Str()) != Ok(j)
  {
    hide IntOf, Decimal.Text;
    var s := j.Str();
    var rest := s[|j.user|..];
    assert s == j.user + rest;
    assert |rest| >= |j.server| + 1;
    var at := First(s, '@');
    if '@' in j.user {
      var k :| 0 <= k < |j.user| && j.user[k] == '@';
      assert s[k] == '@' && at <= k;
      assert |s[at + 1..]| > |j.server|;
    } else if at < |s| {
      var k :| 0 <= k < |j.user| && j.user[k] == ':';
      assert forall i :: 0 <= i < |j.user| ==> s[i] == j.user[i];
      assert at >= |j.user| && s[..at][k] == ':';
      assert First(s[..at], ':') <= k;
    }
  }

  /** The family the phone-number server loses: an agent stays in the user. */
  lemma AgentStaysInUser(j: JID)
    requires j.user != "" && '@' !in j.user && ':' !in j.user
    requires j.server == DEFAULT_USER_SERVER && j.agent != 0
    ensures Parse(j.Str()) == Ok(JID(j.user + "." + Decimal.Text(j.agent), j.server, 0, j.device, 0))
  {
    hide IntOf, Decimal.Text;
    SplitsBack(j);
    assert UserPart(j) == j.user + "." + Decimal.Text(j.agent);
  }

  /**
   * The hashed form spells agent and device out, zeros included, and the hidden server's agent as 1: reading it
   * gives exactly these, except that on the phone-number server the agent stays in the user.
   */
  lemma AdStringParses(j: JID)
    requires j.user != "" && '@' !in j.user && ':' !in j.user
    ensures var agent := if j.agent == 0 && j.server == "lid" then 1 else j.agent;
            Parse(j.AdString())
            == Ok(if j.server == "s.whatsapp.net" then JID(j.user + "." + Decimal.Text(agent), j.server, 0, j.device, 0)
                  else JID(j.user, j.server, agent, j.device, 0))
  {
    hide IntOf, Decimal.Text;
    var agent := j.ActualAgent();
    IntOfText(agent);
    IntOfText(j.device);
    var u, d := j.user + "." + Decimal.Text(agent), Decimal.Text(j.device);
    assert j.AdString() == u + ":" + d + "@" + j.server;
    assert '@' !in u && ':' !in u && '@' !in d;
    FirstOfSplit(u + ":" + d, '@', j.server);
    FirstOfSplit(u, ':', d);
    LastOfSplit(j.user, '.', Decimal.Text(agent));
  }

  /** A formatted integer has no needless zero in front: digits after an optional minus, the first 0 only in "0". */
  lemma {:induction false} NoLeadingZero(n: nat)
    ensures Decimal.Natural(n) != "" && (Decimal.Natural(n)[0] == '0' <==> n == 0)
    ensures n == 0 ==> Decimal.Text(n) == "0"
    ensures n > 0 ==> Decimal.Text(-(n as int)) == "-" + Decimal.Text(n)
  {
    if n >= 10 {
      NoLeadingZero(n / 10);
    }
  }
}
