/** Merging the two halves of conversations split between phone-number and hidden identities. */
module Migrate {
  import opened Wrappers
  import opened Sequences
  import opened Canonical

  datatype ChatInfo = ChatInfo(name: Option<string>, lastTs: Option<int>)

  function MaxOf(a: int, b: int): (m: int)
    ensures m >= a && m >= b && (m == a || m == b)
  {
    if a < b then b else a
  }

  /** The later time, and the first name that is not empty. */
  function Merged(existing: ChatInfo, info: ChatInfo): ChatInfo {
    ChatInfo(
      if existing.name.GetOr("") == "" && info.name.GetOr("") != "" then info.name else existing.name,
      Some(MaxOf(existing.lastTs.GetOr(0), info.lastTs.GetOr(0))))
  }

  function WithChat(acc: Dict<ChatInfo>, jid: string, info: ChatInfo, inverted: Inverted): Dict<ChatInfo> {
    var target := CanonicalJid(jid, inverted);
    match Lookup(acc, target)
    case None => Assign(acc, target, info)
    case Some(existing) => Assign(acc, target, Merged(existing, info))
  }

  function MigratedChats(chats: Dict<ChatInfo>, inverted: Inverted): Dict<ChatInfo> {
    if chats == [] then []
    else
      var n := |chats| - 1;
      WithChat(MigratedChats(chats[..n], inverted), chats[n].0, chats[n].1, inverted)
  }

  function WithContact(acc: Dict<string>, jid: string, name: string, inverted: Inverted): Dict<string> {
    var target := CanonicalJid(jid, inverted);
    if Lookup(acc, target).Some? then acc else Assign(acc, target, name)
  }

  function MigratedContacts(contacts: Dict<string>, inverted: Inverted): Dict<string> {
    if contacts == [] then []
    else
      var n := |contacts| - 1;
      WithContact(MigratedContacts(contacts[..n], inverted), contacts[n].0, contacts[n].1, inverted)
  }

  /** One line of the message file; `rest` is everything of a record but its chat and sender. */
  datatype Line = Blank | Garbage(text: string) | Record(chat: Option<string>, sender: Option<string>, rest: string)

  function CanonicalOption(jid: Option<string>, inverted: Inverted): Option<string> {
    match jid
    case Some(j) => Some(CanonicalJid(j, inverted))
    case None => None
  }

  function MigratedLine(l: Line, inverted: Inverted): Line {
    match l
    case Record(chat, sender, rest) => Record(CanonicalOption(chat, inverted), CanonicalOption(sender, inverted), rest)
    case _ => l
  }

  function MigratedLines(ls: seq<Line>, inverted: Inverted): seq<Line> {
    if ls == [] then []
    else (if ls[0].Blank? then [] else [MigratedLine(ls[0], inverted)]) + MigratedLines(ls[1..], inverted)
  }

  // --- the command -------------------------------------------------------------------------

  class Store {
    var chats: Dict<ChatInfo>
    var contacts: Dict<string>
    var lidmap: Dict<string>
    var lines: seq<Line>

    constructor (chats: Dict<ChatInfo>, contacts: Dict<string>, lidmap: Dict<string>, lines: seq<Line>)
      ensures this.chats == chats && this.contacts == contacts && this.lidmap == lidmap && this.lines == lines
    {
      this.chats, this.contacts, this.lidmap, this.lines := chats, contacts, lidmap, lines;
    }

    /** Rewrites the three files, unless it is a dry run. `total` and `rewritten` count message lines. */
    method Migrate(dryRun: bool) returns (total: nat, rewritten: nat)
      modifies this
      ensures lidmap == old(lidmap)
      ensures if dryRun then chats == old(chats) && contacts == old(contacts) && lines == old(lines)
              else
                var inverted := Invert(old(lidmap));
                && chats == MigratedChats(old(chats), inverted)
                && contacts == MigratedContacts(old(contacts), inverted)
                && lines == MigratedLines(old(lines), inverted)
      ensures total == |MigratedLines(old(lines), Invert(old(lidmap)))|
      ensures rewritten == RewrittenCount(old(lines), Invert(old(lidmap)))
    {
      var inverted := Invert(lidmap);
      var newChats := MergeChats(chats, inverted);
      var newContacts := MergeContacts(contacts, inverted);
      var newLines;
      newLines, rewritten := RewriteLines(lines, inverted);
      total := |newLines|;
      if dryRun {
        return;
      }
      chats := newChats;
      contacts := newContacts;
      lines := newLines;
    }

    method MergeChats(chats: Dict<ChatInfo>, inverted: Inverted) returns (merged: Dict<ChatInfo>)
      ensures merged == MigratedChats(chats, inverted)
    {
      merged := [];
      for i := 0 to |chats|
        invariant merged == MigratedChats(chats[..i], inverted)
      {
        assert chats[..i + 1][..i] == chats[..i];
        var (jid, info) := chats[i];
        var target := CanonicalJid(jid, inverted);
        var existing := Lookup(merged, target);
        if existing.None? {
          merged := Assign(merged, target, info);
        } else {
          var lastTs := MaxOf(existing.value.lastTs.GetOr(0), info.lastTs.GetOr(0));
          var name := existing.value.name;
          if name.GetOr("") == "" && info.name.GetOr("") != "" {
            name := info.name;
          }
          merged := Assign(merged, target, ChatInfo(name, Some(lastTs)));
        }
      }
      assert chats[..|chats|] == chats;
    }

    method MergeContacts(contacts: Dict<string>, inverted: Inverted) returns (merged: Dict<string>)
      ensures merged == MigratedContacts(contacts, inverted)
    {
      merged := [];
      for i := 0 to |contacts|
        invariant merged == MigratedContacts(contacts[..i], inverted)
      {
        assert contacts[..i + 1][..i] == contacts[..i];
        var target := CanonicalJid(contacts[i].0, inverted);
        if Lookup(merged, target).None? {
          merged := Assign(merged, target, contacts[i].1);
        }
      }
      assert contacts[..|contacts|] == contacts;
    }

    method RewriteLines(lines: seq<Line>, inverted: Inverted) returns (out: seq<Line>, rewritten: nat)
      ensures out == MigratedLines(lines, inverted)
      ensures rewritten == RewrittenCount(lines, inverted)
    {
      hide MigratedLine;
      out, rewritten := [], 0;
      for i := 0 to |lines|
        invariant out + MigratedLines(lines[i..], inverted) == MigratedLines(lines, inverted)
        invariant rewritten + RewrittenCount(lines[i..], inverted) == RewrittenCount(lines, inverted)
      {
        assert lines[i..][1..] == lines[i + 1..];
        if !lines[i].Blank? {
          var line := MigratedLine(lines[i], inverted);
          if line != lines[i] {
            rewritten := rewritten + 1;
          }
          Regroup(out, [line], MigratedLines(lines[i + 1..], inverted));
          out := out + [line];
        } else {
          assert [] + MigratedLines(lines[i + 1..], inverted) == MigratedLines(lines[i + 1..], inverted);
        }
      }
      assert out + [] == out;
    }
  }

  /** How many message lines the rewriting changes. */
  function RewrittenCount(ls: seq<Line>, inverted: Inverted): nat {
    if ls == [] then 0
    else (if !ls[0].Blank? && MigratedLine(ls[0], inverted) != ls[0] then 1 else 0) + RewrittenCount(ls[1..], inverted)
  }

  // --- what a merged entry is ----------------------------------------------------------------

  /** The latest time among the entries folded into `target`, or None when there are none. */
  function LatestOf(chats: Dict<ChatInfo>, target: string, inverted: Inverted): Option<int> {
    if chats == [] then None
    else
      var n := |chats| - 1;
      var before := LatestOf(chats[..n], target, inverted);
      if CanonicalJid(chats[n].0, inverted) != target then before
      else Some(MaxOf(before.GetOr(chats[n].1.lastTs.GetOr(0)), chats[n].1.lastTs.GetOr(0)))
  }

  /** The first non-empty name among them, or "". */
  function FirstName(chats: Dict<ChatInfo>, target: string, inverted: Inverted): string {
    if chats == [] then ""
    else if CanonicalJid(chats[0].0, inverted) == target && chats[0].1.name.GetOr("") != "" then chats[0].1.name.value
    else FirstName(chats[1..], target, inverted)
  }

  lemma {:induction false} FirstNameAppend(
    chats: Dict<ChatInfo>, last: (string, ChatInfo), target: string, inverted: Inverted)
    ensures FirstName(chats + [last], target, inverted)
            == if FirstName(chats, target, inverted) != "" then FirstName(chats, target, inverted)
               else if CanonicalJid(last.0, inverted) == target then last.1.name.GetOr("") else ""
    decreases |chats|
  {
    if chats == [] {
      assert chats + [last] == [last];
      assert [last][1..] == [];
    } else {
      assert (chats + [last])[1..] == chats[1..] + [last];
      FirstNameAppend(chats[1..], last, target, inverted);
    }
  }

  /** A merged chat exists exactly for the targets of some entry, with their latest time and first name. */
  lemma {:induction false} ChatsMerge(chats: Dict<ChatInfo>, target: string, inverted: Inverted)
    ensures var merged := Lookup(MigratedChats(chats, inverted), target);
            && (merged.Some? <==> LatestOf(chats, target, inverted).Some?)
            && (merged.Some? ==>
                  && merged.value.lastTs.GetOr(0) == LatestOf(chats, target, inverted).value
                  && merged.value.name.GetOr("") == FirstName(chats, target, inverted))
            && (merged.None? ==> FirstName(chats, target, inverted) == "")
  {
    hide CanonicalJid, Find, Assign;
    if chats == [] {
      NothingIn<ChatInfo>(target);
    } else {
      var n := |chats| - 1;
      ChatsMerge(chats[..n], target, inverted);
      assert chats == chats[..n] + [chats[n]];
      FirstNameAppend(chats[..n], chats[n], target, inverted);
      var (jid, info) := chats[n];
      var acc := MigratedChats(chats[..n], inverted);
      var at := CanonicalJid(jid, inverted);
      match Lookup(acc, at)
      case None => LookupAssigned(acc, at, info, target);
      case Some(existing) => LookupAssigned(acc, at, Merged(existing, info), target);
    }
  }

  lemma NothingIn<V>(key: string)
    ensures Lookup<V>([], key) == None
  {
  }

  /** The name of the first contact folded into `target`. */
  function FirstContact(contacts: Dict<string>, target: string, inverted: Inverted): Option<string> {
    if contacts == [] then None
    else
      var n := |contacts| - 1;
      var before := FirstContact(contacts[..n], target, inverted);
      if before.Some? then before
      else if CanonicalJid(contacts[n].0, inverted) == target then Some(contacts[n].1) else None
  }

  /** The first contact name wins. */
  lemma {:induction false} ContactsMerge(contacts: Dict<string>, target: string, inverted: Inverted)
    ensures Lookup(MigratedContacts(contacts, inverted), target) == FirstContact(contacts, target, inverted)
  {
    hide CanonicalJid, Find, Assign;
    if contacts == [] {
      NothingIn<string>(target);
    } else {
      var n := |contacts| - 1;
      ContactsMerge(contacts[..n], target, inverted);
      LookupAssigned(MigratedContacts(contacts[..n], inverted), CanonicalJid(contacts[n].0, inverted),
                     contacts[n].1, target);
    }
  }

  // --- idempotence -------------------------------------------------------------------------------

  /** Every key once, and every key canonical. */
  ghost predicate Settled<V>(d: Dict<V>, inverted: Inverted) {
    DistinctKeys(d) && forall i :: 0 <= i < |d| ==> CanonicalJid(d[i].0, inverted) == d[i].0
  }

  lemma AssignSettles<V>(d: Dict<V>, jid: string, v: V, inverted: Inverted)
    requires Settled(d, inverted)
    ensures Settled(Assign(d, CanonicalJid(jid, inverted), v), inverted)
  {
    hide CanonicalJid;
    CanonicalIdempotent(jid, inverted);
  }

  lemma {:induction false} ChatsSettle(chats: Dict<ChatInfo>, inverted: Inverted)
    ensures Settled(MigratedChats(chats, inverted), inverted)
  {
    hide CanonicalJid, Assign, Lookup;
    if chats != [] {
      var n := |chats| - 1;
      ChatsSettle(chats[..n], inverted);
      var (jid, info) := chats[n];
      var acc := MigratedChats(chats[..n], inverted);
      match Lookup(acc, CanonicalJid(jid, inverted))
      case None => AssignSettles(acc, jid, info, inverted);
      case Some(existing) => AssignSettles(acc, jid, Merged(existing, info), inverted);
    }
  }

  lemma {:induction false} ContactsSettle(contacts: Dict<string>, inverted: Inverted)
    ensures Settled(MigratedContacts(contacts, inverted), inverted)
  {
    hide CanonicalJid, Assign, Lookup;
    if contacts != [] {
      var n := |contacts| - 1;
      ContactsSettle(contacts[..n], inverted);
      AssignSettles(MigratedContacts(contacts[..n], inverted), contacts[n].0, contacts[n].1, inverted);
    }
  }

  /** Appending a settled dictionary's last entry to the others. */
  lemma LastIsNew<V>(d: Dict<V>, inverted: Inverted)
    requires Settled(d, inverted) && d != []
    ensures var n := |d| - 1;
            && Settled(d[..n], inverted)
            && Lookup(d[..n], d[n].0) == None
            && Assign(d[..n], d[n].0, d[n].1) == d
            && CanonicalJid(d[n].0, inverted) == d[n].0
  {
    hide CanonicalJid;
    var n := |d| - 1;
    assert Find(d[..n], d[n].0) < 0;
    assert d == d[..n] + [(d[n].0, d[n].1)];
  }

  lemma {:induction false} SettledChatsStay(d: Dict<ChatInfo>, inverted: Inverted)
    requires Settled(d, inverted)
    ensures MigratedChats(d, inverted) == d
  {
    hide CanonicalJid, Assign, Lookup, Settled;
    if d != [] {
      LastIsNew(d, inverted);
      SettledChatsStay(d[..|d| - 1], inverted);
    }
  }

  lemma {:induction false} SettledContactsStay(d: Dict<string>, inverted: Inverted)
    requires Settled(d, inverted)
    ensures MigratedContacts(d, inverted) == d
  {
    hide CanonicalJid, Assign, Lookup, Settled;
    if d != [] {
      LastIsNew(d, inverted);
      SettledContactsStay(d[..|d| - 1], inverted);
    }
  }

  function NonBlank(ls: seq<Line>): seq<Line> {
    if ls == [] then [] else (if ls[0].Blank? then [] else [ls[0]]) + NonBlank(ls[1..])
  }

  /** Messages keep their number and order; only chat and sender are rewritten. */
  lemma {:induction false} LinesKeepOrder(ls: seq<Line>, inverted: Inverted)
    ensures var out := MigratedLines(ls, inverted);
            && |out| == |NonBlank(ls)|
            && (forall i :: 0 <= i < |out| ==> out[i] == MigratedLine(NonBlank(ls)[i], inverted) && !out[i].Blank?)
    decreases |ls|
  {
    hide MigratedLine;
    if ls != [] {
      LinesKeepOrder(ls[1..], inverted);
      KeepsKind(ls[0], inverted);
    }
  }

  lemma KeepsKind(l: Line, inverted: Inverted)
    ensures MigratedLine(l, inverted).Blank? == l.Blank?
    ensures MigratedLine(MigratedLine(l, inverted), inverted) == MigratedLine(l, inverted)
    ensures l.Record? ==> MigratedLine(l, inverted).Record? && MigratedLine(l, inverted).rest == l.rest
  {
    hide CanonicalJid;
    if l.Record? {
      CanonicalIdempotent(l.chat.GetOr(""), inverted);
      CanonicalIdempotent(l.sender.GetOr(""), inverted);
    }
  }

  lemma {:induction false} LinesTwice(ls: seq<Line>, inverted: Inverted)
    ensures MigratedLines(MigratedLines(ls, inverted), inverted) == MigratedLines(ls, inverted)
    decreases |ls|
  {
    hide MigratedLine;
    if ls != [] {
      var rest := MigratedLines(ls[1..], inverted);
      LinesTwice(ls[1..], inverted);
      KeepsKind(ls[0], inverted);
      if !ls[0].Blank? {
        var out := [MigratedLine(ls[0], inverted)] + rest;
        assert out[1..] == rest;
      } else {
        assert [] + rest == rest;
      }
    }
  }

  /** At how many positions two lists of lines of one length differ. */
  function Differing(a: seq<Line>, b: seq<Line>): nat
    requires |a| == |b|
  {
    if a == [] then 0
    else Differing(a[..|a| - 1], b[..|b| - 1]) + if a[|a| - 1] == b[|b| - 1] then 0 else 1
  }

  lemma {:induction false} DifferingFront(a: Line, b: Line, as_: seq<Line>, bs: seq<Line>)
    requires |as_| == |bs|
    ensures Differing([a] + as_, [b] + bs) == Differing(as_, bs) + if a == b then 0 else 1
    decreases |as_|
  {
    var n := |as_|;
    if n == 0 {
      assert ([a] + as_)[..0] == [] && ([b] + bs)[..0] == [];
    } else {
      assert ([a] + as_)[..n] == [a] + as_[..n - 1] && ([b] + bs)[..n] == [b] + bs[..n - 1];
      DifferingFront(a, b, as_[..n - 1], bs[..n - 1]);
    }
  }

  /** The lines counted as rewritten are those that differ from what they were; a second migration rewrites none. */
  lemma {:induction false} RewrittenDiffer(ls: seq<Line>, inverted: Inverted)
    ensures |MigratedLines(ls, inverted)| == |NonBlank(ls)|
    ensures RewrittenCount(ls, inverted) == Differing(MigratedLines(ls, inverted), NonBlank(ls))
    ensures RewrittenCount(MigratedLines(ls, inverted), inverted) == 0
    decreases |ls|
  {
    hide MigratedLine;
    if ls != [] {
      var l, rest := ls[0], MigratedLines(ls[1..], inverted);
      RewrittenDiffer(ls[1..], inverted);
      KeepsKind(l, inverted);
      if !l.Blank? {
        DifferingFront(MigratedLine(l, inverted), l, rest, NonBlank(ls[1..]));
        assert ([MigratedLine(l, inverted)] + rest)[1..] == rest;
      } else {
        assert [] + rest == rest && [] + NonBlank(ls[1..]) == NonBlank(ls[1..]);
      }
    }
  }

  /** Migrating what was migrated changes nothing, in any of the three files; every key is canonical and occurs once. */
  lemma MigrationIdempotent(chats: Dict<ChatInfo>, contacts: Dict<string>, lines: seq<Line>, inverted: Inverted)
    ensures var c := MigratedChats(chats, inverted); Settled(c, inverted) && MigratedChats(c, inverted) == c
    ensures var k := MigratedContacts(contacts, inverted); Settled(k, inverted) && MigratedContacts(k, inverted) == k
    ensures MigratedLines(MigratedLines(lines, inverted), inverted) == MigratedLines(lines, inverted)
  {
    hide *;
    ChatsSettle(chats, inverted);
    SettledChatsStay(MigratedChats(chats, inverted), inverted);
    ContactsSettle(contacts, inverted);
    SettledContactsStay(MigratedContacts(contacts, inverted), inverted);
    LinesTwice(lines, inverted);
  }

  // --- references ----------------------------------------------------------------------------------

  lemma {:induction false} EntryCounts(chats: Dict<ChatInfo>, i: nat, inverted: Inverted)
    requires i < |chats|
    ensures LatestOf(chats, CanonicalJid(chats[i].0, inverted), inverted).Some?
    decreases |chats|
  {
    hide CanonicalJid;
    var n := |chats| - 1;
    if i < n {
      EntryCounts(chats[..n], i, inverted);
    }
  }

  lemma {:induction false} ContactCounts(contacts: Dict<string>, i: nat, inverted: Inverted)
    requires i < |contacts|
    ensures FirstContact(contacts, CanonicalJid(contacts[i].0, inverted), inverted).Some?
    decreases |contacts|
  {
    hide CanonicalJid;
    var n := |contacts| - 1;
    if i < n {
      ContactCounts(contacts[..n], i, inverted);
    }
  }

  /** Whatever an identifier referred to before, its rewritten form still refers to an entry. */
  lemma ReferencesKept(chats: Dict<ChatInfo>, contacts: Dict<string>, jid: string, inverted: Inverted)
    ensures Lookup(chats, jid).Some? ==> Lookup(MigratedChats(chats, inverted), CanonicalJid(jid, inverted)).Some?
    ensures Lookup(contacts, jid).Some? ==>
              Lookup(MigratedContacts(contacts, inverted), CanonicalJid(jid, inverted)).Some?
  {
    hide CanonicalJid, LatestOf, FirstContact, MigratedChats, MigratedContacts;
    ChatsMerge(chats, CanonicalJid(jid, inverted), inverted);
    ContactsMerge(contacts, CanonicalJid(jid, inverted), inverted);
    if Lookup(chats, jid).Some? {
      EntryCounts(chats, Find(chats, jid), inverted);
    }
    if Lookup(contacts, jid).Some? {
      ContactCounts(contacts, Find(contacts, jid), inverted);
    }
  }

  /** Every record whose chat had an entry still has one after migration, and so has every named sender. */
  lemma RecordsKeepTheirEntries(
    chats: Dict<ChatInfo>, contacts: Dict<string>, lines: seq<Line>, inverted: Inverted, i: nat)
    requires i < |NonBlank(lines)|
    ensures var out := MigratedLines(lines, inverted);
            && |out| == |NonBlank(lines)|
            && var (l, l') := (NonBlank(lines)[i], out[i]);
            && (!l.Record? ==> l' == l)
            && (l.Record? ==>
                  && l'.Record? && l'.rest == l.rest
                  && (l.chat.Some? && Lookup(chats, l.chat.value).Some? ==>
                        l'.chat.Some? && Lookup(MigratedChats(chats, inverted), l'.chat.value).Some?)
                  && (l.sender.Some? && Lookup(contacts, l.sender.value).Some? ==>
                        l'.sender.Some? && Lookup(MigratedContacts(contacts, inverted), l'.sender.value).Some?))
  {
    hide CanonicalJid, MigratedLines, MigratedChats, MigratedContacts, NonBlank, Lookup;
    LinesKeepOrder(lines, inverted);
    var l := NonBlank(lines)[i];
    if l.Record? {
      ReferencesKept(chats, contacts, l.chat.GetOr(""), inverted);
      ReferencesKept(chats, contacts, l.sender.GetOr(""), inverted);
    }
  }
}
