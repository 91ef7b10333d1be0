/** Folding history-sync blobs into the cache, message by message, without storing an id twice. */
module Ingest {
  import opened Wrappers
  import opened Sequences
  import opened Canonical
  import opened Migrate

  /** Everything of a message that ingesting copies without looking at it. */
  datatype Body = Body(senderName: string, text: string, fromMe: bool, quotedId: string, media: Option<string>)

  datatype HistoryMessage = HistoryMessage(chat: string, sender: string, timestamp: int, msgId: string, body: Body)

  datatype CachedMessage = CachedMessage(ts: int, chat: string, sender: string, msgId: string, body: Body)

  datatype Conversation = Conversation(
    chat: string, name: string, lastTs: int, endType: Option<int>, messages: seq<HistoryMessage>)

  datatype HistorySync = HistorySync(
    pushnames: seq<(string, string)>, lidToPn: seq<(string, string)>, conversations: seq<Conversation>)

  /** A saved notification: a parsed history sync, or one that is skipped for whatever reason. */
  datatype Blob = Skipped | Synced(sync: HistorySync)

  /** The tables as the ingest goes along. */
  datatype Work = Work(
    chats: Dict<ChatInfo>, contacts: Dict<string>, lidmap: Dict<string>,
    seen: set<string>, stored: seq<CachedMessage>, skipped: nat, endTypes: seq<Option<int>>)

  function KnownIds(ms: seq<CachedMessage>): (ids: set<string>)
    ensures "" !in ids
    ensures forall id :: id in ids ==> exists i :: 0 <= i < |ms| && ms[i].msgId == id
  {
    set m | m in ms && m.msgId != "" :: m.msgId
  }

  function Filed(m: HistoryMessage, inverted: Inverted): CachedMessage {
    CachedMessage(m.timestamp, CanonicalJid(m.chat, inverted), CanonicalJid(m.sender, inverted), m.msgId, m.body)
  }

  function WithMessage(w: Work, m: HistoryMessage, inverted: Inverted): Work {
    if m.msgId != "" && m.msgId in w.seen then w.(skipped := w.skipped + 1)
    else w.(seen := w.seen + {m.msgId}, stored := w.stored + [Filed(m, inverted)])
  }

  function WithMessages(w: Work, ms: seq<HistoryMessage>, inverted: Inverted): Work
    decreases |ms|
  {
    if ms == [] then w else WithMessages(WithMessage(w, ms[0], inverted), ms[1..], inverted)
  }

  function WithChatEntry(chats: Dict<ChatInfo>, jid: string, c: Conversation): Dict<ChatInfo> {
    var existing := Lookup(chats, jid).GetOr(ChatInfo(None, None));
    Assign(chats, jid, ChatInfo(
             Some(if c.name != "" then c.name else existing.name.GetOr("")),
             Some(MaxOf(existing.lastTs.GetOr(0), c.lastTs))))
  }

  function WithConversation(w: Work, c: Conversation, inverted: Inverted): Work {
    if c.chat == "" then w
    else
      var jid := CanonicalJid(c.chat, inverted);
      var w1 := w.(chats := WithChatEntry(w.chats, jid, c), endTypes := w.endTypes + [c.endType]);
      WithMessages(w1, c.messages, inverted)
  }

  function WithConversations(w: Work, cs: seq<Conversation>, inverted: Inverted): Work
    decreases |cs|
  {
    if cs == [] then w else WithConversations(WithConversation(w, cs[0], inverted), cs[1..], inverted)
  }

  function WithPushnames(contacts: Dict<string>, names: seq<(string, string)>): Dict<string>
    decreases |names|
  {
    if names == [] then contacts
    else
      var (jid, name) := names[0];
      WithPushnames(if jid != "" && name != "" && Lookup(contacts, jid) != Some(name) then Assign(contacts, jid, name)
                    else contacts, names[1..])
  }

  function WithLids(lidmap: Dict<string>, pairs: seq<(string, string)>): Dict<string>
    decreases |pairs|
  {
    if pairs == [] then lidmap
    else
      var (lid, pn) := pairs[0];
      var local := LocalPart(lid);
      WithLids(if local != "" && pn != "" && Lookup(lidmap, local) != Some(pn) then Assign(lidmap, local, pn)
               else lidmap, pairs[1..])
  }

  function WithBlob(w: Work, b: Blob): Work {
    match b
    case Skipped => w
    case Synced(s) =>
      var lidmap := WithLids(w.lidmap, s.lidToPn);
      WithConversations(w.(contacts := WithPushnames(w.contacts, s.pushnames), lidmap := lidmap),
                        s.conversations, Invert(lidmap))
  }

  function WithBlobs(w: Work, bs: seq<Blob>): Work
    decreases |bs|
  {
    if bs == [] then w else WithBlobs(WithBlob(w, bs[0]), bs[1..])
  }

  /** Where an ingest of these tables starts. */
  function Begin(chats: Dict<ChatInfo>, contacts: Dict<string>, lidmap: Dict<string>, messages: seq<CachedMessage>)
    : Work
  {
    Work(chats, contacts, lidmap, KnownIds(messages), [], 0, [])
  }

  // --- the ingest itself -------------------------------------------------------------------

  class Cache {
    var chats: Dict<ChatInfo>
    var contacts: Dict<string>
    var lidmap: Dict<string>
    var messages: seq<CachedMessage>

    constructor (chats: Dict<ChatInfo>, contacts: Dict<string>, lidmap: Dict<string>, messages: seq<CachedMessage>)
      ensures this.chats == chats && this.contacts == contacts && this.lidmap == lidmap && this.messages == messages
    {
      this.chats, this.contacts, this.lidmap, this.messages := chats, contacts, lidmap, messages;
    }

    method KnownMessageIds() returns (seen: set<string>)
      ensures seen == KnownIds(messages)
    {
      seen := {};
      for i := 0 to |messages|
        invariant seen == KnownIds(messages[..i])
      {
        assert messages[..i + 1] == messages[..i] + [messages[i]];
        if messages[i].msgId != "" {
          seen := seen + {messages[i].msgId};
        }
      }
      assert messages[..|messages|] == messages;
    }

    /** Returns how many messages were stored and each conversation's end-of-history verdict. */
    method IngestBlobs(blobs: seq<Blob>) returns (added: nat, endTypes: seq<Option<int>>, skippedDup: nat)
      modifies this
      ensures var w := WithBlobs(old(Begin(chats, contacts, lidmap, messages)), blobs);
              && chats == w.chats && contacts == w.contacts && lidmap == w.lidmap
              && messages == old(messages) + w.stored
              && added == |w.stored| && endTypes == w.endTypes && skippedDup == w.skipped
    {
      var seen := KnownMessageIds();
      var w := Work(chats, contacts, lidmap, seen, [], 0, []);
      ghost var start := w;
      for i := 0 to |blobs|
        invariant messages == old(messages) && WithBlobs(w, blobs[i..]) == WithBlobs(start, blobs)
      {
        assert blobs[i..][1..] == blobs[i + 1..];
        w := IngestOne(w, blobs[i]);
      }
      chats, contacts, lidmap := w.chats, w.contacts, w.lidmap;
      messages := messages + w.stored;
      added, endTypes, skippedDup := |w.stored|, w.endTypes, w.skipped;
    }

    method IngestOne(w0: Work, blob: Blob) returns (w: Work)
      ensures w == WithBlob(w0, blob)
    {
      if blob.Skipped? {
        return w0;
      }
      var sync := blob.sync;
      var contacts := w0.contacts;
      for i := 0 to |sync.pushnames|
        invariant WithPushnames(contacts, sync.pushnames[i..]) == WithPushnames(w0.contacts, sync.pushnames)
      {
        assert sync.pushnames[i..][1..] == sync.pushnames[i + 1..];
        var (jid, name) := sync.pushnames[i];
        if jid != "" && name != "" && Lookup(contacts, jid) != Some(name) {
          contacts := Assign(contacts, jid, name);
        }
      }
      var lidmap := w0.lidmap;
      for i := 0 to |sync.lidToPn|
        invariant WithLids(lidmap, sync.lidToPn[i..]) == WithLids(w0.lidmap, sync.lidToPn)
      {
        assert sync.lidToPn[i..][1..] == sync.lidToPn[i + 1..];
        var (lid, pn) := sync.lidToPn[i];
        var local := LocalPart(lid);
        if local != "" && pn != "" && Lookup(lidmap, local) != Some(pn) {
          lidmap := Assign(lidmap, local, pn);
        }
      }
      var lidOfPn := Invert(lidmap);
      w := w0.(contacts := contacts, lidmap := lidmap);
      ghost var start := w;
      for i := 0 to |sync.conversations|
        invariant WithConversations(w, sync.conversations[i..], lidOfPn)
                  == WithConversations(start, sync.conversations, lidOfPn)
      {
        assert sync.conversations[i..][1..] == sync.conversations[i + 1..];
        w := IngestConversation(w, sync.conversations[i], lidOfPn);
      }
    }

    method IngestConversation(w0: Work, c: Conversation, inverted: Inverted) returns (w: Work)
      ensures w == WithConversation(w0, c, inverted)
    {
      if c.chat == "" {
        return w0;
      }
      var jid := CanonicalJid(c.chat, inverted);
      w := w0.(chats := WithChatEntry(w0.chats, jid, c), endTypes := w0.endTypes + [c.endType]);
      ghost var start := w;
      for i := 0 to |c.messages|
        invariant WithMessages(w, c.messages[i..], inverted) == WithMessages(start, c.messages, inverted)
      {
        assert c.messages[i..][1..] == c.messages[i + 1..];
        var m := c.messages[i];
        if m.msgId != "" && m.msgId in w.seen {
          w := w.(skipped := w.skipped + 1);
        } else {
          w := w.(seen := w.seen + {m.msgId}, stored := w.stored + [Filed(m, inverted)]);
        }
      }
    }
  }

  // --- the messages an ingest walks -----------------------------------------------------------

  function WalkedIn(cs: seq<Conversation>): seq<HistoryMessage> {
    if cs == [] then [] else (if cs[0].chat == "" then [] else cs[0].messages) + WalkedIn(cs[1..])
  }

  /** Every message of every conversation that names its chat, in order. */
  function Walked(bs: seq<Blob>): seq<HistoryMessage> {
    if bs == [] then []
    else (if bs[0].Skipped? then [] else WalkedIn(bs[0].sync.conversations)) + Walked(bs[1..])
  }

  /** What walking messages does, whatever they are filed under. */
  datatype Tally = Tally(seen: set<string>, ids: seq<string>, skipped: nat)

  function TallyOf(t: Tally, ms: seq<HistoryMessage>): Tally
    decreases |ms|
  {
    if ms == [] then t
    else
      var id := ms[0].msgId;
      TallyOf(if id != "" && id in t.seen then t.(skipped := t.skipped + 1)
              else Tally(t.seen + {id}, t.ids + [id], t.skipped), ms[1..])
  }

  function IdsOf(ms: seq<CachedMessage>): seq<string> {
    seq(|ms|, i requires 0 <= i < |ms| => ms[i].msgId)
  }

  function TallyIn(w: Work): Tally {
    Tally(w.seen, IdsOf(w.stored), w.skipped)
  }

  lemma {:induction false} TallyConcat(t: Tally, a: seq<HistoryMessage>, b: seq<HistoryMessage>)
    ensures TallyOf(t, a + b) == TallyOf(TallyOf(t, a), b)
    decreases |a|
  {
    if a == [] {
      assert a + b == b;
    } else {
      assert (a + b)[1..] == a[1..] + b;
      var id := a[0].msgId;
      TallyConcat(if id != "" && id in t.seen then t.(skipped := t.skipped + 1)
                  else Tally(t.seen + {id}, t.ids + [id], t.skipped), a[1..], b);
    }
  }

  lemma {:induction false} MessagesTally(w: Work, ms: seq<HistoryMessage>, inverted: Inverted)
    ensures TallyIn(WithMessages(w, ms, inverted)) == TallyOf(TallyIn(w), ms)
    ensures var w' := WithMessages(w, ms, inverted); w'.chats == w.chats && w'.lidmap == w.lidmap
    decreases |ms|
  {
    hide CanonicalJid;
    if ms != [] {
      var w1 := WithMessage(w, ms[0], inverted);
      assert IdsOf(w.stored + [Filed(ms[0], inverted)]) == IdsOf(w.stored) + [ms[0].msgId];
      MessagesTally(w1, ms[1..], inverted);
    }
  }

  lemma {:induction false} ConversationsTally(w: Work, cs: seq<Conversation>, inverted: Inverted)
    ensures TallyIn(WithConversations(w, cs, inverted)) == TallyOf(TallyIn(w), WalkedIn(cs))
    ensures WithConversations(w, cs, inverted).lidmap == w.lidmap
    decreases |cs|
  {
    hide CanonicalJid, WithMessages, TallyOf, WithChatEntry;
    if cs == [] {
      NothingTallied(TallyIn(w));
    } else {
      var c, w1 := cs[0], WithConversation(w, cs[0], inverted);
      var ms := if c.chat == "" then [] else c.messages;
      if c.chat != "" {
        var jid := CanonicalJid(c.chat, inverted);
        MessagesTally(w.(chats := WithChatEntry(w.chats, jid, c), endTypes := w.endTypes + [c.endType]),
                      c.messages, inverted);
      } else {
        NothingTallied(TallyIn(w));
      }
      TallyConcat(TallyIn(w), ms, WalkedIn(cs[1..]));
      ConversationsTally(w1, cs[1..], inverted);
    }
  }

  lemma NothingTallied(t: Tally)
    ensures TallyOf(t, []) == t
  {
  }

  lemma {:induction false} BlobsTally(w: Work, bs: seq<Blob>)
    ensures TallyIn(WithBlobs(w, bs)) == TallyOf(TallyIn(w), Walked(bs))
    decreases |bs|
  {
    hide WithConversations, TallyOf, WithPushnames, WithLids;
    if bs == [] {
      NothingTallied(TallyIn(w));
    } else {
      var ms := if bs[0].Skipped? then [] else WalkedIn(bs[0].sync.conversations);
      if bs[0].Synced? {
        var s := bs[0].sync;
        var lidmap := WithLids(w.lidmap, s.lidToPn);
        ConversationsTally(w.(contacts := WithPushnames(w.contacts, s.pushnames), lidmap := lidmap),
                           s.conversations, Invert(lidmap));
      } else {
        NothingTallied(TallyIn(w));
      }
      TallyConcat(TallyIn(w), ms, Walked(bs[1..]));
      BlobsTally(WithBlob(w, bs[0]), bs[1..]);
    }
  }

  // --- conservation and deduplication -------------------------------------------------------------

  function Count(ids: seq<string>, id: string): nat {
    if ids == [] then 0 else (if ids[0] == id then 1 else 0) + Count(ids[1..], id)
  }

  function CountWalked(ms: seq<HistoryMessage>, id: string): nat {
    if ms == [] then 0 else (if ms[0].msgId == id then 1 else 0) + CountWalked(ms[1..], id)
  }

  lemma {:induction false} CountConcat(a: seq<string>, b: seq<string>, id: string)
    ensures Count(a + b, id) == Count(a, id) + Count(b, id)
    decreases |a|
  {
    if a == [] {
      assert a + b == b;
    } else {
      assert (a + b)[1..] == a[1..] + b;
      CountConcat(a[1..], b, id);
    }
  }

  lemma {:induction false} CountsOf(t: Tally, ms: seq<HistoryMessage>, id: string)
    ensures var t' := TallyOf(t, ms);
            && |t'.ids| + t'.skipped == |t.ids| + t.skipped + |ms|
            && (id == "" ==> Count(t'.ids, id) == Count(t.ids, id) + CountWalked(ms, id))
            && (id != "" && id in t.seen ==> Count(t'.ids, id) == Count(t.ids, id))
            && (id != "" && id !in t.seen ==>
                  Count(t'.ids, id) == Count(t.ids, id) + if CountWalked(ms, id) > 0 then 1 else 0)
            && (id in t'.seen <==> id in t.seen || CountWalked(ms, id) > 0)
    decreases |ms|
  {
    if ms != [] {
      var first := ms[0].msgId;
      CountConcat(t.ids, [first], id);
      assert [first][1..] == [];
      CountsOf(if first != "" && first in t.seen then t.(skipped := t.skipped + 1)
               else Tally(t.seen + {first}, t.ids + [first], t.skipped), ms[1..], id);
    }
  }

  lemma {:induction false} CountPositive(ms: seq<CachedMessage>, id: string)
    requires id != ""
    ensures id in KnownIds(ms) <==> Count(IdsOf(ms), id) > 0
    decreases |ms|
  {
    if ms != [] {
      CountPositive(ms[1..], id);
      assert IdsOf(ms)[1..] == IdsOf(ms[1..]);
      assert forall m :: m in ms <==> m == ms[0] || m in ms[1..];
      assert id in KnownIds(ms) <==> ms[0].msgId == id || id in KnownIds(ms[1..]);
    }
  }

  /**
   * Added plus skipped is what was walked, and each id that is not empty occurs afterwards as often
   * as before if it was stored already, and otherwise once exactly if it is in the blobs.
   */
  lemma IngestConserves(chats: Dict<ChatInfo>, contacts: Dict<string>, lidmap: Dict<string>,
                        messages: seq<CachedMessage>, blobs: seq<Blob>, id: string)
    ensures var w := WithBlobs(Begin(chats, contacts, lidmap, messages), blobs);
            && |w.stored| + w.skipped == |Walked(blobs)|
            && (id != "" ==>
                  Count(IdsOf(messages + w.stored), id)
                  == if Count(IdsOf(messages), id) > 0 then Count(IdsOf(messages), id)
                     else if CountWalked(Walked(blobs), id) > 0 then 1 else 0)
  {
    hide WithBlobs, TallyOf, Walked, KnownIds;
    var w0 := Begin(chats, contacts, lidmap, messages);
    var w := WithBlobs(w0, blobs);
    BlobsTally(w0, blobs);
    CountsOf(TallyIn(w0), Walked(blobs), id);
    assert IdsOf([]) == [];
    assert |IdsOf(w.stored)| == |w.stored|;
    assert IdsOf(messages + w.stored) == IdsOf(messages) + IdsOf(w.stored);
    CountConcat(IdsOf(messages), IdsOf(w.stored), id);
    if id != "" {
      CountPositive(messages, id);
    }
  }

  /** Ingesting the same blobs again stores no message with an id: what it adds are exactly those without one. */
  lemma ReingestAddsNoId(chats: Dict<ChatInfo>, contacts: Dict<string>, lidmap: Dict<string>,
                         messages: seq<CachedMessage>, blobs: seq<Blob>, id: string)
    ensures var w := WithBlobs(Begin(chats, contacts, lidmap, messages), blobs);
            var again := WithBlobs(Begin(w.chats, w.contacts, w.lidmap, messages + w.stored), blobs);
            Count(IdsOf(again.stored), id) == if id == "" then CountWalked(Walked(blobs), "") else 0
  {
    hide WithBlobs, TallyOf, Walked, KnownIds;
    var w := WithBlobs(Begin(chats, contacts, lidmap, messages), blobs);
    IngestConserves(chats, contacts, lidmap, messages, blobs, id);
    var w0 := Begin(w.chats, w.contacts, w.lidmap, messages + w.stored);
    BlobsTally(w0, blobs);
    CountsOf(TallyIn(w0), Walked(blobs), id);
    assert IdsOf([]) == [];
    if id != "" {
      CountPositive(messages + w.stored, id);
    }
  }

  // --- the chats -------------------------------------------------------------------------------------

  /** Each conversation's time, under the identifier it is filed under. */
  function FilingsIn(cs: seq<Conversation>, inverted: Inverted): seq<(string, int)> {
    if cs == [] then []
    else
      (if cs[0].chat == "" then [] else [(CanonicalJid(cs[0].chat, inverted), cs[0].lastTs)])
      + FilingsIn(cs[1..], inverted)
  }

  /** Over all blobs, with the identities known when each blob is reached. */
  function Filings(lidmap: Dict<string>, bs: seq<Blob>): seq<(string, int)>
    decreases |bs|
  {
    if bs == [] then []
    else if bs[0].Skipped? then Filings(lidmap, bs[1..])
    else
      var known := WithLids(lidmap, bs[0].sync.lidToPn);
      FilingsIn(bs[0].sync.conversations, Invert(known)) + Filings(known, bs[1..])
  }

  /** The latest of a start value and the times filed under `jid`. */
  function LatestFiled(fs: seq<(string, int)>, jid: string, start: int): int
    decreases |fs|
  {
    if fs == [] then start else LatestFiled(fs[1..], jid, if fs[0].0 == jid then MaxOf(start, fs[0].1) else start)
  }

  lemma {:induction false} LatestConcat(a: seq<(string, int)>, b: seq<(string, int)>, jid: string, start: int)
    ensures LatestFiled(a + b, jid, start) == LatestFiled(b, jid, LatestFiled(a, jid, start))
    decreases |a|
  {
    if a == [] {
      assert a + b == b;
    } else {
      assert (a + b)[1..] == a[1..] + b;
      LatestConcat(a[1..], b, jid, if a[0].0 == jid then MaxOf(start, a[0].1) else start);
    }
  }

  function LastTs(chats: Dict<ChatInfo>, jid: string): int {
    match Lookup(chats, jid)
    case Some(info) => info.lastTs.GetOr(0)
    case None => 0
  }

  lemma ConversationTs(w: Work, c: Conversation, inverted: Inverted, jid: string)
    ensures var w' := WithConversation(w, c, inverted);
            && LastTs(w'.chats, jid) == LatestFiled(FilingsIn([c], inverted), jid, LastTs(w.chats, jid))
            && w'.lidmap == w.lidmap
  {
    hide CanonicalJid, Find, Assign, WithMessages;
    assert [c][1..] == [] && FilingsIn([], inverted) == [];
    if c.chat != "" {
      var at := CanonicalJid(c.chat, inverted);
      assert FilingsIn([c], inverted) == [(at, c.lastTs)];
      assert [(at, c.lastTs)][1..] == [];
      var existing := Lookup(w.chats, at).GetOr(ChatInfo(None, None));
      var entry := ChatInfo(Some(if c.name != "" then c.name else existing.name.GetOr("")),
                            Some(MaxOf(existing.lastTs.GetOr(0), c.lastTs)));
      LookupAssigned(w.chats, at, entry, jid);
      MessagesTally(w.(chats := WithChatEntry(w.chats, at, c), endTypes := w.endTypes + [c.endType]),
                    c.messages, inverted);
    } else {
      assert FilingsIn([c], inverted) == [];
    }
  }

  lemma {:induction false} ConversationsTs(w: Work, cs: seq<Conversation>, inverted: Inverted, jid: string)
    ensures var w' := WithConversations(w, cs, inverted);
            && LastTs(w'.chats, jid) == LatestFiled(FilingsIn(cs, inverted), jid, LastTs(w.chats, jid))
            && w'.lidmap == w.lidmap
    decreases |cs|
  {
    hide CanonicalJid, WithConversation, LastTs;
    if cs != [] {
      ConversationTs(w, cs[0], inverted, jid);
      ConversationsTs(WithConversation(w, cs[0], inverted), cs[1..], inverted, jid);
      FilingsSplit(cs, inverted);
      LatestConcat(FilingsIn([cs[0]], inverted), FilingsIn(cs[1..], inverted), jid, LastTs(w.chats, jid));
    }
  }

  lemma FilingsSplit(cs: seq<Conversation>, inverted: Inverted)
    requires cs != []
    ensures FilingsIn(cs, inverted) == FilingsIn([cs[0]], inverted) + FilingsIn(cs[1..], inverted)
  {
    assert [cs[0]][1..] == [];
  }

  /** Every chat's time is the maximum of its old one and of the conversations filed under it. */
  lemma {:induction false} ChatTimes(w: Work, bs: seq<Blob>, jid: string)
    ensures LastTs(WithBlobs(w, bs).chats, jid) == LatestFiled(Filings(w.lidmap, bs), jid, LastTs(w.chats, jid))
    decreases |bs|
  {
    hide LastTs, WithConversations, WithLids, WithPushnames, FilingsIn;
    if bs != [] {
      ChatTimes(WithBlob(w, bs[0]), bs[1..], jid);
      if bs[0].Synced? {
        var s := bs[0].sync;
        var known := WithLids(w.lidmap, s.lidToPn);
        var w1 := w.(contacts := WithPushnames(w.contacts, s.pushnames), lidmap := known);
        ConversationsTs(w1, s.conversations, Invert(known), jid);
        LatestConcat(FilingsIn(s.conversations, Invert(known)), Filings(known, bs[1..]), jid, LastTs(w.chats, jid));
      }
    }
  }

  // --- names, identities and filing ----------------------------------------------------------------

  /** The last name given to `jid`, if any. */
  function LastName(names: seq<(string, string)>, jid: string): Option<string> {
    if names == [] then None
    else
      var later := LastName(names[1..], jid);
      if later.Some? then later
      else if names[0].0 == jid && jid != "" && names[0].1 != "" then Some(names[0].1) else None
  }

  /** A contact is called by the last name a sync gives it, and keeps its old one if there is none. */
  lemma {:induction false} LastNameWins(contacts: Dict<string>, names: seq<(string, string)>, jid: string)
    ensures Lookup(WithPushnames(contacts, names), jid)
            == if LastName(names, jid).Some? then LastName(names, jid) else Lookup(contacts, jid)
    decreases |names|
  {
    hide Lookup, Assign;
    if names != [] {
      var (j, name) := names[0];
      if j != "" && name != "" && Lookup(contacts, j) != Some(name) {
        LookupAssigned(contacts, j, name, jid);
        LastNameWins(Assign(contacts, j, name), names[1..], jid);
      } else {
        LastNameWins(contacts, names[1..], jid);
      }
    }
  }

  /** The last phone number paired with a hidden identity's local part, if any. */
  function LastNumber(pairs: seq<(string, string)>, local: string): Option<string> {
    if pairs == [] then None
    else
      var later := LastNumber(pairs[1..], local);
      if later.Some? then later
      else if LocalPart(pairs[0].0) == local && local != "" && pairs[0].1 != "" then Some(pairs[0].1) else None
  }

  /** A hidden identity maps to the last number a sync pairs it with, and keeps its old one if there is none. */
  lemma {:induction false} LastNumberWins(lidmap: Dict<string>, pairs: seq<(string, string)>, local: string)
    ensures Lookup(WithLids(lidmap, pairs), local)
            == if LastNumber(pairs, local).Some? then LastNumber(pairs, local) else Lookup(lidmap, local)
    decreases |pairs|
  {
    hide Lookup, Assign, LocalPart;
    if pairs != [] {
      var l, pn := LocalPart(pairs[0].0), pairs[0].1;
      if l != "" && pn != "" && Lookup(lidmap, l) != Some(pn) {
        LookupAssigned(lidmap, l, pn, local);
        LastNumberWins(Assign(lidmap, l, pn), pairs[1..], local);
      } else {
        LastNumberWins(lidmap, pairs[1..], local);
      }
    }
  }

  /** Chat and sender are as canonical as the identities known allow. */
  predicate WellFiled(m: CachedMessage, inverted: Inverted) {
    CanonicalJid(m.chat, inverted) == m.chat && CanonicalJid(m.sender, inverted) == m.sender
  }

  /** Everything a list of messages adds comes behind what was there, and is well filed. */
  lemma {:induction false} MessagesWellFiled(w: Work, ms: seq<HistoryMessage>, inverted: Inverted)
    ensures var w' := WithMessages(w, ms, inverted);
            && w.stored <= w'.stored
            && forall i :: |w.stored| <= i < |w'.stored| ==> WellFiled(w'.stored[i], inverted)
    decreases |ms|
  {
    hide CanonicalJid;
    if ms != [] {
      var m := ms[0];
      CanonicalIdempotent(m.chat, inverted);
      CanonicalIdempotent(m.sender, inverted);
      MessagesWellFiled(WithMessage(w, m, inverted), ms[1..], inverted);
    }
  }

  /** So is everything the conversations of one sync add. */
  lemma {:induction false} ConversationsWellFiled(w: Work, cs: seq<Conversation>, inverted: Inverted)
    ensures var w' := WithConversations(w, cs, inverted);
            && w.stored <= w'.stored
            && forall i :: |w.stored| <= i < |w'.stored| ==> WellFiled(w'.stored[i], inverted)
    decreases |cs|
  {
    hide CanonicalJid, WellFiled, WithMessages, WithChatEntry;
    if cs != [] {
      var c := cs[0];
      if c.chat != "" {
        var jid := CanonicalJid(c.chat, inverted);
        MessagesWellFiled(w.(chats := WithChatEntry(w.chats, jid, c), endTypes := w.endTypes + [c.endType]),
                          c.messages, inverted);
      }
      ConversationsWellFiled(WithConversation(w, c, inverted), cs[1..], inverted);
    }
  }

  // --- what is stored of a message ---------------------------------------------------------------------

  /** The stored message is this one: its time, id and contents, under its chat and sender as they are known. */
  predicate Carries(stored: CachedMessage, m: HistoryMessage, inverted: Inverted) {
    && stored.ts == m.timestamp && stored.msgId == m.msgId && stored.body == m.body
    && stored.chat == CanonicalJid(m.chat, inverted) && stored.sender == CanonicalJid(m.sender, inverted)
  }

  /** Message `i` is the first under its id, which was not stored before, or has none. */
  ghost predicate IsNew(seen: set<string>, ms: seq<HistoryMessage>, i: nat) {
    && i < |ms|
    && (ms[i].msgId == ""
        || (ms[i].msgId !in seen && forall j :: 0 <= j < i ==> ms[j].msgId != ms[i].msgId))
  }

  /** What is stored of a list of messages are the new ones, in order: each carries its message. */
  lemma {:induction false} NewOnesStored(w: Work, ms: seq<HistoryMessage>, inverted: Inverted, i: nat)
    requires IsNew(w.seen, ms, i)
    ensures var stored, at := WithMessages(w, ms, inverted).stored, |WithMessages(w, ms[..i], inverted).stored|;
            |w.stored| <= at < |stored| && Carries(stored[at], ms[i], inverted)
    decreases i
  {
    hide CanonicalJid;
    MessagesWellFiled(w, ms[..i], inverted);
    if i == 0 {
      assert ms[..0] == [];
      MessagesWellFiled(WithMessage(w, ms[0], inverted), ms[1..], inverted);
    } else {
      var w1 := WithMessage(w, ms[0], inverted);
      assert ms[1..][i - 1] == ms[i] && ms[..i][1..] == ms[1..][..i - 1] && ms[..i][0] == ms[0];
      assert forall j :: 0 <= j < |ms[1..]| ==> ms[1..][j] == ms[j + 1];
      NewOnesStored(w1, ms[1..], inverted, i - 1);
    }
  }

  /** And nothing else is stored. */
  lemma {:induction false} StoredAreNew(w: Work, ms: seq<HistoryMessage>, inverted: Inverted, k: nat)
    requires |w.stored| <= k < |WithMessages(w, ms, inverted).stored|
    ensures exists i: nat :: IsNew(w.seen, ms, i) && Carries(WithMessages(w, ms, inverted).stored[k], ms[i], inverted)
    decreases |ms|
  {
    hide CanonicalJid;
    var w1, rest := WithMessage(w, ms[0], inverted), ms[1..];
    MessagesWellFiled(w1, rest, inverted);
    if k < |w1.stored| {
      assert WithMessages(w, ms, inverted).stored[k] == w1.stored[k];
      assert IsNew(w.seen, ms, 0);
    } else {
      StoredAreNew(w1, rest, inverted, k);
      var i: nat :| IsNew(w1.seen, rest, i) && Carries(WithMessages(w1, rest, inverted).stored[k], rest[i], inverted);
      assert forall j :: 0 <= j < |rest| ==> rest[j] == ms[j + 1];
      assert IsNew(w.seen, ms, i + 1) && ms[i + 1] == rest[i];
    }
  }

  // --- names of chats and verdicts ------------------------------------------------------------------------

  /** The last non-empty name of the conversations filed under `jid`, else the one it had. */
  function LastGiven(cs: seq<Conversation>, jid: string, inverted: Inverted, first: string): string {
    if cs == [] then first
    else
      var n := |cs| - 1;
      if cs[n].chat != "" && CanonicalJid(cs[n].chat, inverted) == jid && cs[n].name != "" then cs[n].name
      else LastGiven(cs[..n], jid, inverted, first)
  }

  function ChatName(chats: Dict<ChatInfo>, jid: string): string {
    match Lookup(chats, jid)
    case Some(info) => info.name.GetOr("")
    case None => ""
  }

  /** The verdicts of the conversations that name their chat, in order. */
  function VerdictsOf(cs: seq<Conversation>): seq<Option<int>> {
    if cs == [] then []
    else VerdictsOf(cs[..|cs| - 1]) + if cs[|cs| - 1].chat == "" then [] else [cs[|cs| - 1].endType]
  }

  lemma {:induction false} MessagesAside(w: Work, ms: seq<HistoryMessage>, inverted: Inverted)
    ensures var w' := WithMessages(w, ms, inverted); w'.chats == w.chats && w'.endTypes == w.endTypes
    decreases |ms|
  {
    hide CanonicalJid;
    if ms != [] {
      MessagesAside(WithMessage(w, ms[0], inverted), ms[1..], inverted);
    }
  }

  lemma {:induction false} ConversationsConcat(w: Work, a: seq<Conversation>, c: Conversation, inverted: Inverted)
    ensures WithConversations(w, a + [c], inverted) == WithConversation(WithConversations(w, a, inverted), c, inverted)
    decreases |a|
  {
    hide WithConversation;
    if a == [] {
      assert a + [c] == [c] && [c][1..] == [];
      var w1 := WithConversation(w, c, inverted);
      assert WithConversations(w1, [], inverted) == w1;
    } else {
      assert (a + [c])[1..] == a[1..] + [c];
      ConversationsConcat(WithConversation(w, a[0], inverted), a[1..], c, inverted);
    }
  }

  /** After a sync a chat is called by the last name given to it, and each of its conversations has its verdict. */
  lemma {:induction false} NamesAndVerdicts(w: Work, cs: seq<Conversation>, inverted: Inverted, jid: string)
    ensures var w' := WithConversations(w, cs, inverted);
            && ChatName(w'.chats, jid) == LastGiven(cs, jid, inverted, ChatName(w.chats, jid))
            && w'.endTypes == w.endTypes + VerdictsOf(cs)
    decreases |cs|
  {
    hide CanonicalJid, Find, Assign, WithMessages;
    if cs != [] {
      var n := |cs| - 1;
      var (before, c) := (cs[..n], cs[n]);
      assert cs == before + [c];
      NamesAndVerdicts(w, before, inverted, jid);
      ConversationsConcat(w, before, c, inverted);
      var w1 := WithConversations(w, before, inverted);
      if c.chat != "" {
        var at := CanonicalJid(c.chat, inverted);
        var chats := WithChatEntry(w1.chats, at, c);
        MessagesAside(w1.(chats := chats, endTypes := w1.endTypes + [c.endType]), c.messages, inverted);
        ChatEntryNamed(w1.chats, at, c, jid);
        Regroup(w.endTypes, VerdictsOf(before), [c.endType]);
      }
    }
  }

  lemma ChatEntryNamed(chats: Dict<ChatInfo>, at: string, c: Conversation, jid: string)
    ensures ChatName(WithChatEntry(chats, at, c), jid)
            == if at == jid && c.name != "" then c.name else ChatName(chats, jid)
  {
    hide Find, Assign;
    var existing := Lookup(chats, at).GetOr(ChatInfo(None, None));
    LookupAssigned(chats, at, ChatInfo(
                     Some(if c.name != "" then c.name else existing.name.GetOr("")),
                     Some(MaxOf(existing.lastTs.GetOr(0), c.lastTs))), jid);
  }
}
