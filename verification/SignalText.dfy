/** What a decrypted Signal message does to the account and to the message table. */
module SignalText {
  import opened Wrappers
  import opened Bytes

  type Data = seq<Byte>

  datatype Group = Group(
    id: string, name: string, masterKey: Data, revision: int, members: seq<string>, expiration: Option<int>)

  datatype Contact = Contact(uuid: Option<string>, number: Option<string>, name: string, expiration: Option<int>) {
    predicate Names(chat: string) {
      uuid == Some(chat) || number == Some(chat)
    }
  }

  /** One linked account; `keys` stands for its serialised key material and ratchets. */
  datatype Account = Account(
    aci: string, number: Option<string>, username: Option<string>,
    groups: seq<Group>, contacts: seq<Contact>, keys: Data)

  datatype GroupContext = GroupContext(masterKey: Data, revision: int)

  datatype Content = Content(
    body: string, timestamp: int, deleteTarget: int, expireTimer: Option<int>, isViewOnce: bool,
    groupV2: Option<GroupContext>)
  {
    /** The group this message names, if it names one. */
    function Context(): Option<GroupContext> {
      if groupV2.Some? && groupV2.value.masterKey != [] then groupV2 else None
    }

    /** Plain text that is meant to stay. */
    predicate Keeps() {
      body != "" && expireTimer.GetOr(0) == 0 && !isViewOnce
    }
  }

  datatype Sent = Sent(destination: Option<string>, timestamp: int, message: Option<Content>)

  datatype Decoded = Decoded(
    sender: string, timestamp: int, usernameChange: bool, sent: Option<Sent>, dataMessage: Option<Content>)
  {
    function Message(): Option<Content> {
      if sent.Some? && sent.value.message.Some? then sent.value.message else dataMessage
    }
  }

  datatype Item = Item(chat: string, sender: string, timestamp: int, data: Content)

  // --- the account ----------------------------------------------------------------------

  function FindGroup(gs: seq<Group>, id: string): (r: Option<nat>)
    ensures r.Some? ==> r.value < |gs| && gs[r.value].id == id && forall i :: 0 <= i < r.value ==> gs[i].id != id
    ensures r.None? ==> forall i :: 0 <= i < |gs| ==> gs[i].id != id
  {
    if gs == [] then None
    else if gs[0].id == id then Some(0)
    else match FindGroup(gs[1..], id)
      case Some(i) => assert gs[1..][i] == gs[i + 1]; Some(i + 1)
      case None => None
  }

  function FindContact(cs: seq<Contact>, chat: string): (r: Option<nat>)
    ensures r.Some? ==> r.value < |cs| && cs[r.value].Names(chat)
    ensures r.None? ==> forall i :: 0 <= i < |cs| ==> !cs[i].Names(chat)
  {
    if cs == [] then None
    else if cs[0].Names(chat) then Some(0)
    else match FindContact(cs[1..], chat)
      case Some(i) => assert cs[1..][i] == cs[i + 1]; Some(i + 1)
      case None => None
  }

  /** The conversation a message belongs to. */
  function ChatOf(a: Account, d: Decoded, data: Content, groupId: Data -> string): string {
    if data.Context().Some? then groupId(data.Context().value.masterKey)
    else if d.sent.None? then d.sender
    else if d.sent.value.destination.GetOr("") != "" then d.sent.value.destination.value
    else a.aci
  }

  function TimestampOf(d: Decoded, data: Content): int {
    if data.timestamp != 0 then data.timestamp
    else if d.sent.Some? && d.sent.value.timestamp != 0 then d.sent.value.timestamp
    else d.timestamp
  }

  function WithoutUsername(a: Account, d: Decoded): Account {
    if d.usernameChange then a.(username := None) else a
  }

  /** A group met for the first time is recorded. */
  function WithGroup(gs: seq<Group>, chat: string, context: Option<GroupContext>): seq<Group> {
    if context.Some? && FindGroup(gs, chat).None? then
      gs + [Group(chat, chat, context.value.masterKey, context.value.revision, [], None)]
    else gs
  }

  /** A newer revision forgets the members. */
  function WithRevision(gs: seq<Group>, chat: string, revision: int): seq<Group> {
    match FindGroup(gs, chat)
    case Some(i) => if revision > gs[i].revision then gs[i := gs[i].(revision := revision, members := [])] else gs
    case None => gs
  }

  /** The conversation's disappearing timer goes to its group, else to its contact, else to a new contact. */
  function WithTimer(a: Account, chat: string, timer: Option<int>): Account {
    if timer.None? then a
    else match FindGroup(a.groups, chat)
      case Some(i) => a.(groups := a.groups[i := a.groups[i].(expiration := timer)])
      case None =>
        match FindContact(a.contacts, chat)
        case Some(j) => a.(contacts := a.contacts[j := a.contacts[j].(expiration := timer)])
        case None => a.(contacts := a.contacts + [Contact(Some(chat), None, chat, timer)])
  }

  function Revision(data: Content): int {
    match data.groupV2
    case Some(context) => context.revision
    case None => 0
  }

  function Normalized(a: Account, d: Decoded, groupId: Data -> string): (Account, Option<Item>) {
    var a1 := WithoutUsername(a, d);
    match d.Message()
    case None => (a1, None)
    case Some(data) =>
      var chat := ChatOf(a1, d, data, groupId);
      var groups := WithRevision(WithGroup(a1.groups, chat, data.Context()), chat, Revision(data));
      (WithTimer(a1.(groups := groups), chat, data.expireTimer), Some(Item(chat, d.sender, TimestampOf(d, data), data)))
  }

  ghost predicate UniqueGroups(gs: seq<Group>) {
    forall i, j :: 0 <= i < j < |gs| ==> gs[i].id != gs[j].id
  }

  /** Same groups in the same order, perhaps one more at the end; members are cleared only by a newer revision. */
  ghost predicate Grows(before: seq<Group>, after: seq<Group>) {
    && |before| <= |after| <= |before| + 1
    && forall i :: 0 <= i < |before| ==>
         && after[i].id == before[i].id
         && after[i].masterKey == before[i].masterKey
         && after[i].revision >= before[i].revision
         && (after[i].revision == before[i].revision ==> after[i].members == before[i].members)
  }

  /** A message never takes a group away, never turns a revision back, and never records a group twice. */
  lemma GroupsOnlyGrow(a: Account, d: Decoded, groupId: Data -> string)
    requires UniqueGroups(a.groups)
    ensures var gs := Normalized(a, d, groupId).0.groups;
            UniqueGroups(gs) && Grows(a.groups, gs)
  {
    hide ChatOf, Content.Context, WithGroup, WithRevision, WithTimer;
    var a1 := WithoutUsername(a, d);
    if d.Message().Some? {
      var data := d.Message().value;
      var chat := ChatOf(a1, d, data, groupId);
      var added := WithGroup(a1.groups, chat, data.Context());
      AddedGroup(a1.groups, chat, data.Context());
      var revised := WithRevision(added, chat, Revision(data));
      RevisedGroup(added, chat, Revision(data));
      TimedGroup(a1.(groups := revised), chat, data.expireTimer);
    }
  }

  lemma AddedGroup(gs: seq<Group>, chat: string, context: Option<GroupContext>)
    requires UniqueGroups(gs)
    ensures UniqueGroups(WithGroup(gs, chat, context)) && Grows(gs, WithGroup(gs, chat, context))
  {
  }

  lemma RevisedGroup(gs: seq<Group>, chat: string, revision: int)
    requires UniqueGroups(gs)
    ensures var gs' := WithRevision(gs, chat, revision);
            UniqueGroups(gs') && Grows(gs, gs') && |gs'| == |gs|
  {
  }

  lemma TimedGroup(a: Account, chat: string, timer: Option<int>)
    ensures var gs := WithTimer(a, chat, timer).groups;
            |gs| == |a.groups| && forall i :: 0 <= i < |gs| ==> gs[i] == a.groups[i].(expiration := gs[i].expiration)
  {
  }

  /** Only the conversation the message belongs to is touched, and the keys never are. */
  lemma OtherConversationsUntouched(a: Account, d: Decoded, groupId: Data -> string, i: nat)
    requires d.Message().Some? && i < |a.groups|
    requires a.groups[i].id != ChatOf(WithoutUsername(a, d), d, d.Message().value, groupId)
    ensures Normalized(a, d, groupId).0.groups[i] == a.groups[i]
    ensures Normalized(a, d, groupId).0.keys == a.keys && Normalized(a, d, groupId).0.aci == a.aci
  {
    hide ChatOf, FindGroup, FindContact, WithGroup, WithRevision, WithTimer;
    var a1, data := WithoutUsername(a, d), d.Message().value;
    var chat := ChatOf(a1, d, data, groupId);
    var groups := WithGroup(a1.groups, chat, data.Context());
    GroupKept(a1.groups, chat, data.Context(), i);
    RevisionKept(groups, chat, Revision(data), i);
    TimerKept(a1.(groups := WithRevision(groups, chat, Revision(data))), chat, data.expireTimer, i);
  }

  lemma GroupKept(gs: seq<Group>, chat: string, context: Option<GroupContext>, i: nat)
    requires i < |gs|
    ensures var gs' := WithGroup(gs, chat, context); |gs| <= |gs'| && gs'[i] == gs[i]
  {
    hide FindGroup;
  }

  lemma RevisionKept(gs: seq<Group>, chat: string, revision: int, i: nat)
    requires i < |gs| && gs[i].id != chat
    ensures var gs' := WithRevision(gs, chat, revision); |gs'| == |gs| && gs'[i] == gs[i]
  {
    hide FindGroup;
  }

  lemma TimerKept(a: Account, chat: string, timer: Option<int>, i: nat)
    requires i < |a.groups| && a.groups[i].id != chat
    ensures var a' := WithTimer(a, chat, timer);
            |a'.groups| == |a.groups| && a'.groups[i] == a.groups[i] && a'.keys == a.keys && a'.aci == a.aci
  {
    hide FindGroup, FindContact;
  }

  /**
   * Where a message belongs, read off what it carries: a group by its master key; else, sent from another device,
   * whom it went to, or a note to self; else its sender. It is timed by itself, then by its sync, then by its
   * envelope.
   */
  lemma WhereItBelongs(a: Account, d: Decoded, groupId: Data -> string)
    ensures var synced := d.sent.Some? && d.sent.value.message.Some?;
            var data := if synced then d.sent.value.message else d.dataMessage;
            match Normalized(a, d, groupId).1
            case None => data == None
            case Some(item) =>
              && data == Some(item.data) && item.sender == d.sender
              && (match item.data.groupV2
                  case Some(GroupContext(key, _)) => key != [] ==> item.chat == groupId(key)
                  case None => true)
              && (item.data.groupV2.None? || item.data.groupV2.value.masterKey == [] ==>
                    item.chat == match d.sent
                                 case None => d.sender
                                 case Some(Sent(None, _, _)) => a.aci
                                 case Some(Sent(Some(to), _, _)) => if to != "" then to else a.aci)
              && (item.data.timestamp != 0 ==> item.timestamp == item.data.timestamp)
              && (item.data.timestamp == 0 && d.sent.Some? && d.sent.value.timestamp != 0 ==>
                    item.timestamp == d.sent.value.timestamp)
              && (item.data.timestamp == 0 && (d.sent.None? || d.sent.value.timestamp == 0) ==>
                    item.timestamp == d.timestamp)
  {
    hide WithGroup, WithRevision, WithTimer;
  }

  /** The first group under this id. */
  ghost predicate FirstGroup(gs: seq<Group>, id: string, i: nat) {
    i < |gs| && gs[i].id == id && forall j :: 0 <= j < i ==> gs[j].id != id
  }

  /** What a message leaves of its own group: a newer revision and a timer are taken over, and members forgotten. */
  lemma GroupAfter(a: Account, d: Decoded, groupId: Data -> string, i: nat)
    requires Normalized(a, d, groupId).1.Some? && FirstGroup(a.groups, Normalized(a, d, groupId).1.value.chat, i)
    ensures var (after, data) := (Normalized(a, d, groupId).0.groups, Normalized(a, d, groupId).1.value.data);
            var revision := match data.groupV2 { case Some(c) => c.revision case None => 0 };
            var g := a.groups[i];
            && |after| == |a.groups|
            && after[i] == Group(g.id, g.name, g.masterKey,
                                 if revision > g.revision then revision else g.revision,
                                 if revision > g.revision then [] else g.members,
                                 if data.expireTimer.Some? then data.expireTimer else g.expiration)
  {
    hide ChatOf, FindContact, FindGroup;
    var a1, data := WithoutUsername(a, d), d.Message().value;
    var chat := ChatOf(a1, d, data, groupId);
    FoundFirst(a.groups, chat, i);
    var revised := WithRevision(a.groups, chat, Revision(data));
    FoundFirst(revised, chat, i);
  }

  /** A group met for the first time is recorded with the message's key, revision and timer, without members. */
  lemma NewGroupAfter(a: Account, d: Decoded, groupId: Data -> string)
    requires Normalized(a, d, groupId).1.Some?
    requires forall k :: 0 <= k < |a.groups| ==> a.groups[k].id != Normalized(a, d, groupId).1.value.chat
    ensures var (after, item) := (Normalized(a, d, groupId).0.groups, Normalized(a, d, groupId).1.value);
            after == match item.data.groupV2
                     case None => a.groups
                     case Some(GroupContext(key, revision)) =>
                       a.groups + if key != [] then
                                    [Group(item.chat, item.chat, key, revision, [], item.data.expireTimer)]
                                  else []
  {
    hide ChatOf, FindContact;
    var a1, data := WithoutUsername(a, d), d.Message().value;
    var chat := ChatOf(a1, d, data, groupId);
    var added := WithGroup(a1.groups, chat, data.Context());
    if data.Context().Some? {
      FoundFirst(added, chat, |a.groups|);
      TimerOfLast(a1.(groups := added), chat, data.expireTimer);
    } else {
      assert FindGroup(a.groups, chat).None?;
      assert a.groups + [] == a.groups;
    }
  }

  lemma FoundFirst(gs: seq<Group>, id: string, i: nat)
    requires FirstGroup(gs, id, i)
    ensures FindGroup(gs, id) == Some(i)
  {
  }

  lemma TimerOfLast(a: Account, chat: string, timer: Option<int>)
    requires a.groups != [] && FindGroup(a.groups, chat) == Some(|a.groups| - 1)
    requires a.groups[|a.groups| - 1].expiration == None
    ensures var n := |a.groups| - 1;
            WithTimer(a, chat, timer).groups == a.groups[..n] + [a.groups[n].(expiration := timer)]
  {
    hide FindGroup, FindContact;
  }

  /** Without a group of that id the timer goes to the first contact named so, or to a new one. */
  lemma ContactsAfter(a: Account, d: Decoded, groupId: Data -> string, k: nat)
    requires Normalized(a, d, groupId).1.Some?
    ensures var (after, item) := (Normalized(a, d, groupId).0, Normalized(a, d, groupId).1.value);
            var timer := item.data.expireTimer;
            var named := (c: Contact) => c.uuid == Some(item.chat) || c.number == Some(item.chat);
            var grouped := exists i :: 0 <= i < |after.groups| && after.groups[i].id == item.chat;
            && (timer == None || grouped ==> after.contacts == a.contacts)
            && (timer != None && !grouped && k < |a.contacts| && named(a.contacts[k])
                && (forall j :: 0 <= j < k ==> !named(a.contacts[j])) ==>
                  after.contacts == a.contacts[k := a.contacts[k].(expiration := timer)])
            && (timer != None && !grouped && (forall j :: 0 <= j < |a.contacts| ==> !named(a.contacts[j])) ==>
                  after.contacts == a.contacts + [Contact(Some(item.chat), None, item.chat, timer)])
            && after.username == if d.usernameChange then None else a.username
  {
    hide ChatOf, WithGroup, WithRevision;
    var a1, data := WithoutUsername(a, d), d.Message().value;
    var chat := ChatOf(a1, d, data, groupId);
    var groups := WithRevision(WithGroup(a1.groups, chat, data.Context()), chat, Revision(data));
    TimedGroup(a1.(groups := groups), chat, data.expireTimer);
    if k < |a.contacts| && a.contacts[k].Names(chat) && forall j :: 0 <= j < k ==> !a.contacts[j].Names(chat) {
      FoundContact(a.contacts, chat, k);
    }
  }

  lemma FoundContact(cs: seq<Contact>, chat: string, k: nat)
    requires k < |cs| && cs[k].Names(chat) && forall j :: 0 <= j < k ==> !cs[j].Names(chat)
    ensures FindContact(cs, chat) == Some(k)
  {
    if k > 0 {
      assert forall j :: 0 <= j < |cs[1..]| ==> cs[1..][j] == cs[j + 1];
      FoundContact(cs[1..], chat, k - 1);
    }
  }

  // --- the message table -----------------------------------------------------------------

  datatype MsgKey = MsgKey(owner: string, chat: string, sender: string, timestamp: int)

  type Messages = map<MsgKey, string>

  function Owner(a: Account): string {
    if a.number.GetOr("") != "" then a.number.value else a.aci
  }

  /** Deletes what the message takes back, then keeps its text unless one is already kept in its place. */
  function Ingested(ms: Messages, a: Account, item: Item): (Messages, bool) {
    var ms1 := AfterDelete(ms, a, item);
    if !item.data.Keeps() then (ms1, false)
    else (if PlaceOf(a, item) in ms1 then ms1 else ms1[PlaceOf(a, item) := item.data.body], true)
  }

  /** Where a message's text is kept. */
  function PlaceOf(a: Account, item: Item): MsgKey {
    MsgKey(Owner(a), item.chat, item.sender, item.timestamp)
  }

  /** Where the text stands that a message takes back. */
  function TargetOf(a: Account, item: Item): MsgKey {
    MsgKey(Owner(a), item.chat, item.sender, item.data.deleteTarget)
  }

  predicate Deletes(ms: Messages, a: Account, item: Item) {
    item.data.deleteTarget != 0 && TargetOf(a, item) in ms
  }

  function AfterDelete(ms: Messages, a: Account, item: Item): Messages {
    if item.data.deleteTarget != 0 then ms - {TargetOf(a, item)} else ms
  }

  /** The text is meant to stay and nothing is kept in its place. */
  predicate Inserts(ms: Messages, a: Account, item: Item) {
    item.data.Keeps() && PlaceOf(a, item) !in AfterDelete(ms, a, item)
  }

  /** The table grows by the text inserted and shrinks by the one deleted; what is inserted is kept afterwards. */
  lemma TableGrows(ms: Messages, a: Account, item: Item)
    ensures var ms' := Ingested(ms, a, item).0;
            && |ms'| == |ms| + (if Inserts(ms, a, item) then 1 else 0) - (if Deletes(ms, a, item) then 1 else 0)
            && (Inserts(ms, a, item) ==> PlaceOf(a, item) in ms' && ms'[PlaceOf(a, item)] == item.data.body)
            && (!Inserts(ms, a, item) ==> ms' == AfterDelete(ms, a, item))
  {
    var ms1, target := AfterDelete(ms, a, item), TargetOf(a, item);
    SizeWithout(ms, target);
    if Inserts(ms, a, item) {
      SizeWith(ms1, PlaceOf(a, item), item.data.body);
    }
  }

  lemma SizeWithout(ms: Messages, k: MsgKey)
    ensures |ms - {k}| == |ms| - (if k in ms then 1 else 0)
  {
    assert (ms - {k}).Keys == ms.Keys - {k};
    assert |ms.Keys| == |ms| && |(ms - {k}).Keys| == |ms - {k}|;
  }

  lemma SizeWith(ms: Messages, k: MsgKey, text: string)
    requires k !in ms
    ensures |ms[k := text]| == |ms| + 1
  {
    assert ms[k := text].Keys == ms.Keys + {k};
    assert |ms.Keys| == |ms| && |ms[k := text].Keys| == |ms[k := text]|;
  }

  /** Texts are kept under the account's number, or its id without one, by conversation, sender and time. */
  lemma WhereTextsStand(a: Account, item: Item)
    ensures var owner := match a.number { case Some(n) => if n != "" then n else a.aci case None => a.aci };
            && PlaceOf(a, item) == MsgKey(owner, item.chat, item.sender, item.timestamp)
            && TargetOf(a, item) == MsgKey(owner, item.chat, item.sender, item.data.deleteTarget)
    ensures item.data.Keeps()
            <==> item.data.body != "" && !item.data.isViewOnce
                 && (item.data.expireTimer == None || item.data.expireTimer == Some(0))
  {
  }

  /** Nothing that was meant to disappear or to be seen once is ever stored. */
  lemma EphemeralNeverStored(ms: Messages, a: Account, item: Item)
    requires item.data.expireTimer.GetOr(0) != 0 || item.data.isViewOnce
    ensures !Ingested(ms, a, item).1
    ensures forall k :: k in Ingested(ms, a, item).0 ==> k in ms && Ingested(ms, a, item).0[k] == ms[k]
  {
  }

  /** A message touches at most two keys, of its own conversation and sender; a second time it changes nothing. */
  lemma IngestIsLocalAndIdempotent(ms: Messages, a: Account, item: Item)
    ensures var (ms1, kept) := Ingested(ms, a, item);
            && Ingested(ms1, a, item) == (ms1, kept)
            && forall k: MsgKey | !Touches(a, item, k) :: (k in ms1 <==> k in ms) && (k in ms ==> ms1[k] == ms[k])
  {
    var owner := Owner(a);
    var gone := MsgKey(owner, item.chat, item.sender, item.data.deleteTarget);
    var key := MsgKey(owner, item.chat, item.sender, item.timestamp);
    var ms1 := Ingested(ms, a, item).0;
    if item.data.deleteTarget != 0 {
      assert gone != key ==> ms1 - {gone} == ms1;
      if gone == key && item.data.Keeps() {
        assert (ms1 - {gone})[key := item.data.body] == ms1;
      } else {
        assert ms1 - {gone} == ms1;
      }
    }
  }

  /** The keys a message may write or delete. */
  predicate Touches(a: Account, item: Item, k: MsgKey) {
    && k.owner == Owner(a) && k.chat == item.chat && k.sender == item.sender
    && (k.timestamp == item.timestamp || k.timestamp == item.data.deleteTarget)
  }
}
