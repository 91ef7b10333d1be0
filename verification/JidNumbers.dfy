/** Which texts an identifier's agent and device are read from, and as what numbers. */
module JidNumbers {
  import opened Wrappers
  import opened Jids
  import Decimal
  import JidText

  predicate Blank(c: char) {
    c == ' ' || c == '\t' || c == '\n' || c == '\U{0B}' || c == '\U{0C}' || c == '\r'
  }

  predicate Blanks(s: string) {
    forall c :: c in s ==> Blank(c)
  }

  /** The number a row of decimal digits stands for. */
  function Value(s: string): nat {
    if s == "" then 0 else
    var c := s[|s| - 1];
    10 * Value(s[..|s| - 1]) + (if '0' <= c <= '9' then c as int - '0' as int else 0)
  }

  function Plain(s: string): string {
    if s == "" then "" else (if s[0] == '_' then "" else [s[0]]) + Plain(s[1..])
  }

  /** Digits in groups: single underscores, none at either end (`due`: a digit must come first). */
  ghost predicate Groups(s: string, due: bool) {
    && (forall i :: 0 <= i < |s| ==> '0' <= s[i] <= '9' || s[i] == '_')
    && (forall i :: 0 < i < |s| ==> s[i - 1] != '_' || s[i] != '_')
    && (if s == "" then !due else s[|s| - 1] != '_' && (due ==> s[0] != '_'))
  }

  lemma ValueAdds(p: string, c: char)
    requires '0' <= c <= '9'
    ensures Value(p + [c]) == 10 * Value(p) + (c as int - '0' as int)
  {
    assert (p + [c])[..|p|] == p;
  }

  lemma GroupsStep(s: string, due: bool)
    requires s != ""
    ensures Groups(s, due) <==> (if s[0] == '_' then !due && Groups(s[1..], true)
                                 else '0' <= s[0] <= '9' && Groups(s[1..], false))
  {
    var t := s[1..];
    assert forall i :: 0 <= i < |t| ==> t[i] == s[i + 1];
    assert forall i :: 0 < i < |s| ==> s[i] == t[i - 1];
  }

  lemma DigitsStep(s: string, value: nat, due: bool)
    requires s != ""
    ensures JidText.Digits(s, value, due)
            == if '0' <= s[0] <= '9' then JidText.Digits(s[1..], 10 * value + (s[0] as int - '0' as int), false)
               else if s[0] == '_' && !due then JidText.Digits(s[1..], value, true)
               else None
    ensures Plain(s) == (if s[0] == '_' then "" else [s[0]]) + Plain(s[1..])
  {
  }

  lemma {:induction false} DigitsSpell(p: string, s: string, due: bool)
    ensures JidText.Digits(s, Value(p), due) == if Groups(s, due) then Some(Value(p + Plain(s))) else None
    decreases |s|
  {
    if s == "" {
      assert p + Plain(s) == p;
    } else {
      hide Groups, Value, Plain, JidText.Digits;
      GroupsStep(s, due);
      DigitsStep(s, Value(p), due);
      if s[0] == '_' {
        assert p + Plain(s) == p + Plain(s[1..]);
        DigitsSpell(p, s[1..], true);
      } else if '0' <= s[0] <= '9' {
        ValueAdds(p, s[0]);
        assert p + Plain(s) == p + [s[0]] + Plain(s[1..]);
        DigitsSpell(p + [s[0]], s[1..], false);
      }
    }
  }

  lemma WholeDigits(s: string)
    ensures JidText.Digits(s, 0, true) == if Groups(s, true) then Some(Value(Plain(s))) else None
  {
    DigitsSpell("", s, true);
    assert "" + Plain(s) == Plain(s);
  }

  lemma BlankChars()
    ensures forall c {:trigger JidText.IsSpace(c)} {:trigger Blank(c)} :: JidText.IsSpace(c) <==> Blank(c)
  {
  }

  lemma {:induction false} StripsLeft(lead: string, s: string)
    requires Blanks(lead) && (s != "" ==> !Blank(s[0]))
    ensures JidText.StripLeft(lead + s) == s
  {
    if lead == "" {
      assert lead + s == s;
      if s != "" {
        BlankChars();
      }
    } else {
      BlankChars();
      assert (lead + s)[1..] == lead[1..] + s;
      StripsLeft(lead[1..], s);
    }
  }

  lemma {:induction false} StripsRight(s: string, trail: string)
    requires Blanks(trail) && (s != "" ==> !Blank(s[|s| - 1]))
    ensures JidText.StripRight(s + trail) == s
    decreases |trail|
  {
    if trail == "" {
      assert s + trail == s;
      if s != "" {
        BlankChars();
      }
    } else {
      var n := |trail| - 1;
      BlankChars();
      assert (s + trail)[|s| + n] == trail[n];
      assert (s + trail)[..|s| + n] == s + trail[..n];
      StripsRight(s, trail[..n]);
    }
  }

  lemma {:induction false} LeadingBlanks(s: string) returns (lead: string)
    ensures Blanks(lead) && s == lead + JidText.StripLeft(s)
  {
    lead := "";
    if s != "" && JidText.IsSpace(s[0]) {
      BlankChars();
      var rest := LeadingBlanks(s[1..]);
      lead := [s[0]] + rest;
    }
  }

  lemma {:induction false} TrailingBlanks(s: string) returns (trail: string)
    ensures Blanks(trail) && s == JidText.StripRight(s) + trail
    decreases |s|
  {
    trail := "";
    if s != "" && JidText.IsSpace(s[|s| - 1]) {
      BlankChars();
      var rest := TrailingBlanks(s[..|s| - 1]);
      trail := rest + [s[|s| - 1]];
    }
  }

  /** Every text that is a number: blanks around an optional sign and grouped digits. */
  lemma IntSpelled(lead: string, sign: string, body: string, trail: string)
    requires Blanks(lead) && Blanks(trail) && sign in ["", "+", "-"] && Groups(body, true)
    ensures JidText.IntOf(lead + sign + body + trail)
            == Some(if sign == "-" then -(Value(Plain(body)) as int) else Value(Plain(body)) as int)
  {
    var t := sign + body;
    assert body[0] != '_' && body[|body| - 1] != '_';
    assert t[|t| - 1] == body[|body| - 1];
    WholeDigits(body);
    hide JidText.Digits, JidText.StripLeft, JidText.StripRight, Plain, Value;
    assert lead + sign + body + trail == lead + (t + trail);
    StripsLeft(lead, t + trail);
    StripsRight(t, trail);
    assert sign != "" ==> t[1..] == body;
    assert sign == "" ==> t == body;
  }

  /** And no other text is. */
  lemma IntSplits(s: string) returns (lead: string, sign: string, body: string, trail: string)
    requires JidText.IntOf(s).Some?
    ensures s == lead + sign + body + trail
    ensures Blanks(lead) && Blanks(trail) && sign in ["", "+", "-"] && Groups(body, true)
  {
    hide JidText.Digits, JidText.StripLeft, JidText.StripRight, Plain, Value, Groups;
    lead := LeadingBlanks(s);
    trail := TrailingBlanks(JidText.StripLeft(s));
    var t := JidText.StripRight(JidText.StripLeft(s));
    sign := if t[0] == '-' || t[0] == '+' then [t[0]] else "";
    body := t[|sign|..];
    assert t == sign + body;
    WholeDigits(body);
  }

  /** Off the phone-number server a number behind the last dot is the agent, whatever stands before the dot. */
  lemma AgentIsSplitOff(user: string, number: string, server: string)
    requires '@' !in user && '@' !in number && ':' !in user && ':' !in number && '.' !in number
    ensures var s := user + "." + number;
            JidText.Parse(s + "@" + server)
            == match JidText.IntOf(number)
               case Some(agent) => Ok(if server == "s.whatsapp.net" then JID(s, server, 0, 0, 0)
                                      else JID(user, server, agent, 0, 0))
               case None => Ok(JID(s, server, 0, 0, 0))
  {
    hide JidText.IntOf, JidText.First, JidText.Last;
    var s := user + "." + number;
    JidText.FirstOfSplit(s, '@', server);
    assert JidText.First(s, ':') == |s|;
    JidText.LastOfSplit(user, '.', number);
    assert s[..|user|] == user && s[|user| + 1..] == number;
    assert JidText.AgentOf(s, server) == if server == "s.whatsapp.net" then None else JidText.IntOf(number);
    assert s[..|s|] == s;
  }

  /** A device that is no number is the one error; a missing device is 0. */
  lemma DeviceIsRead(user: string, device: string)
    requires '@' !in user && '@' !in device && ':' !in user
    ensures JidText.Parse(user + ":" + device + "@" + "s.whatsapp.net")
            == match JidText.IntOf(device)
               case Some(d) => Ok(JID(user, "s.whatsapp.net", 0, d, 0))
               case None => Err
  {
    hide JidText.IntOf;
    var s := user + ":" + device;
    JidText.FirstOfSplit(s, '@', "s.whatsapp.net");
    JidText.FirstOfSplit(user, ':', device);
  }
}
