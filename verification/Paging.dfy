/** Walking a chat's history backwards, page by page, against a phone that holds all of it. */
module Paging {
  import opened Wrappers

  const NOTHING_MORE := 1
  const MORE_BUT_NO_ACCESS := 3

  /** A message is identified by its id; its time is in whole seconds, so two messages may share one. */
  datatype Msg = Msg(ts: int, id: string)

  /** What the phone does with a request: nothing, or some older messages and its end-of-history verdict. */
  datatype Reply = Silent | Served(messages: seq<Msg>, end: Option<int>)

  /** How the phone answers its n-th request, given the anchor's position and how many were asked for. */
  type Answering = (nat, nat, int) -> Reply

  /** The phone's history is ordered by time, ties included, and holds every message once. */
  ghost predicate Timeline(h: seq<Msg>) {
    && (forall i, j :: 0 <= i < j < |h| ==> h[i].ts <= h[j].ts)
    && forall i, j :: 0 <= i < j < |h| ==> h[i].id != h[j].id
  }

  /** From position `from` on, no two messages share a second. */
  ghost predicate StrictFrom(h: seq<Msg>, from: nat) {
    forall i, j :: from <= i < j < |h| ==> h[i].ts < h[j].ts
  }

  /** Two messages carry this very second. */
  ghost predicate Shared(h: seq<Msg>, ts: int) {
    exists i, j :: 0 <= i < j < |h| && h[i].ts == ts && h[j].ts == ts
  }

  ghost predicate Distinct(ms: seq<Msg>) {
    forall i, j :: 0 <= i < j < |ms| ==> ms[i] != ms[j]
  }

  ghost predicate SameMembers(a: seq<Msg>, b: seq<Msg>) {
    forall m :: m in a <==> m in b
  }

  /** The messages right before position `p`, in whatever order the phone lists them. */
  ghost predicate RightBefore(h: seq<Msg>, p: nat, ms: seq<Msg>)
    requires p <= |h|
  {
    |ms| <= p && Distinct(ms) && SameMembers(ms, h[p - |ms|..p])
  }

  /**
   * The phone serves the messages right before the anchor, no more than asked for, and its verdict
   * is true: nothing more only when it served the first message, no access only when some precede.
   */
  ghost predicate Honest(h: seq<Msg>, answer: Answering) {
    forall call: nat, p: nat, n: int :: p < |h| && answer(call, p, n).Served? ==>
      var r := answer(call, p, n);
      && RightBefore(h, p, r.messages)
      && |r.messages| <= (if n > 0 then n else 0)
      && (r.end == Some(NOTHING_MORE) ==> |r.messages| == p)
      && (r.end == Some(MORE_BUT_NO_ACCESS) ==> |r.messages| < p)
  }

  predicate Final(end: Option<int>) {
    end == Some(NOTHING_MORE) || end == Some(MORE_BUT_NO_ACCESS)
  }

  /** A page that does not end the walk is full. */
  ghost predicate FullPages(h: seq<Msg>, answer: Answering) {
    forall call: nat, p: nat, n: int :: p < |h| && n > 0 && answer(call, p, n).Served? ==>
      Final(answer(call, p, n).end) || |answer(call, p, n).messages| == n
  }

  // --- the walk, as functions ------------------------------------------------------------

  /** The first row, in file order, with the least time. */
  function Oldest(rows: seq<Msg>): (i: nat)
    requires rows != []
    ensures i < |rows|
    ensures forall j :: 0 <= j < |rows| ==> rows[i].ts <= rows[j].ts
    ensures forall j :: 0 <= j < i ==> rows[i].ts < rows[j].ts
  {
    if |rows| == 1 then 0
    else
      var k := Oldest(rows[1..]);
      assert forall j :: 1 <= j < |rows| ==> rows[j] == rows[1..][j - 1];
      if rows[0].ts <= rows[k + 1].ts then 0 else k + 1
  }

  predicate Known(rows: seq<Msg>, id: string) {
    exists m | m in rows :: m.id == id
  }

  /** Storing what was served, without storing an id twice. */
  function Stored(rows: seq<Msg>, served: seq<Msg>): (r: seq<Msg>)
    ensures rows <= r
    decreases |served|
  {
    if served == [] then rows
    else Stored(if Known(rows, served[0].id) then rows else rows + [served[0]], served[1..])
  }

  /** Where the phone finds a message in its history; the length if it does not. */
  function Position(h: seq<Msg>, m: Msg): (p: nat)
    ensures p <= |h|
    ensures p < |h| ==> h[p] == m
    ensures p == |h| ==> m !in h
  {
    if h == [] || h[0] == m then 0 else 1 + Position(h[1..], m)
  }

  datatype Ask = Ask(anchor: Msg, n: int)

  /** The chat's cached rows in file order, and the requests sent. */
  datatype State = State(rows: seq<Msg>, asks: seq<Ask>)

  datatype Terms = Terms(count: int, since: Option<int>, page: int)

  datatype Stop = Count | Since | NoReply | NoOlder | NoAccess | NothingNew | NoAnchor

  datatype PageResult = PageResult(gained: int, requests: nat, stop: Stop)

  /** One request: how many messages it stored and the phone's verdict, or None for no reply. */
  function Requested(h: seq<Msg>, answer: Answering, s: State, anchor: Msg, n: int)
    : (State, Option<(nat, Option<int>)>)
  {
    var asks := s.asks + [Ask(anchor, n)];
    match answer(|s.asks|, Position(h, anchor), n)
    case Silent => (State(s.rows, asks), None)
    case Served(messages, end) =>
      var rows := Stored(s.rows, messages);
      (State(rows, asks), Some((|rows| - |s.rows|, end)))
  }

  function PageSize(t: Terms, gained: int): int {
    if t.page < t.count - gained then t.page else t.count - gained
  }

  /** The walk from a point on, with what was gained and asked so far. */
  function Walked(h: seq<Msg>, answer: Answering, s: State, gained: int, requests: nat, t: Terms): (State, PageResult)
    decreases t.count - gained
  {
    if gained >= t.count then (s, PageResult(gained, requests, Count))
    else if s.rows == [] then (s, PageResult(gained, requests, NoAnchor))
    else
      var anchor := s.rows[Oldest(s.rows)];
      if t.since.Some? && anchor.ts <= t.since.value then (s, PageResult(gained, requests, Since))
      else
        var (s', reply) := Requested(h, answer, s, anchor, PageSize(t, gained));
        match reply
        case None => (s', PageResult(gained, requests + 1, NoReply))
        case Some((got, end)) =>
          if end == Some(MORE_BUT_NO_ACCESS) then (s', PageResult(gained + got, requests + 1, NoAccess))
          else if end == Some(NOTHING_MORE) then (s', PageResult(gained + got, requests + 1, NoOlder))
          else if got <= 0 then (s', PageResult(gained + got, requests + 1, NothingNew))
          else Walked(h, answer, s', gained + got, requests + 1, t)
  }

  // --- the walk itself -----------------------------------------------------------------------

  /** The chat on the phone, the cached rows and the requests sent. */
  class Chat {
    const history: seq<Msg>
    const answer: Answering
    var rows: seq<Msg>
    var asks: seq<Ask>

    function View(): State
      reads this
    {
      State(rows, asks)
    }

    method OldestCached() returns (m: Option<Msg>)
      ensures m == if rows == [] then None else Some(rows[Oldest(rows)])
      ensures m.Some? ==> m.value in rows && forall r :: r in rows ==> m.value.ts <= r.ts
    {
      m := None;
      ghost var at := 0;
      for i := 0 to |rows|
        invariant m.None? <==> i == 0
        invariant m.Some? ==> at < i && rows[at] == m.value
        invariant m.Some? ==> forall j :: 0 <= j < i ==> m.value.ts <= rows[j].ts
        invariant m.Some? ==> forall j :: 0 <= j < at ==> m.value.ts < rows[j].ts
      {
        if m.None? || rows[i].ts < m.value.ts {
          m, at := Some(rows[i]), i;
        }
      }
    }

    /** Asks the phone for `n` messages older than the anchor and stores what is new in its reply. */
    method Request(anchor: Msg, n: int) returns (reply: Option<(nat, Option<int>)>)
      modifies this
      ensures (View(), reply) == Requested(history, answer, old(View()), anchor, n)
    {
      var r := answer(|asks|, Position(history, anchor), n);
      asks := asks + [Ask(anchor, n)];
      if r.Silent? {
        return None;
      }
      var before := |rows|;
      ghost var all := Stored(rows, r.messages);
      for i := 0 to |r.messages|
        invariant asks == old(asks) + [Ask(anchor, n)]
        invariant Stored(rows, r.messages[i..]) == all
      {
        assert r.messages[i..][1..] == r.messages[i + 1..];
        if !Known(rows, r.messages[i].id) {
          rows := rows + [r.messages[i]];
        }
      }
      reply := Some((|rows| - before, r.end));
    }
  }

  method PageOnDemand(chat: Chat, t: Terms) returns (r: PageResult)
    modifies chat
    ensures (chat.View(), r) == Walked(chat.history, chat.answer, old(chat.View()), 0, 0, t)
  {
    hide Requested, Stored, Position, Oldest;
    var gained, requests := 0, 0;
    ghost var whole := Walked(chat.history, chat.answer, chat.View(), 0, 0, t);
    while gained < t.count
      invariant Walked(chat.history, chat.answer, chat.View(), gained, requests, t) == whole
      decreases t.count - gained
    {
      var anchor := chat.OldestCached();
      if anchor.None? {
        return PageResult(gained, requests, NoAnchor);
      }
      if t.since.Some? && anchor.value.ts <= t.since.value {
        return PageResult(gained, requests, Since);
      }
      requests := requests + 1;
      var reply := chat.Request(anchor.value, if t.page < t.count - gained then t.page else t.count - gained);
      if reply.None? {
        return PageResult(gained, requests, NoReply);
      }
      var (got, end) := reply.value;
      gained := gained + got;
      if end == Some(MORE_BUT_NO_ACCESS) {
        return PageResult(gained, requests, NoAccess);
      }
      if end == Some(NOTHING_MORE) {
        return PageResult(gained, requests, NoOlder);
      }
      if got <= 0 {
        return PageResult(gained, requests, NothingNew);
      }
    }
    r := PageResult(gained, requests, Count);
  }

  // --- the cache as a newest part of the history ----------------------------------------------

  /** The rows are exactly the newest |rows| messages of the history, in some order. */
  ghost predicate Newest(h: seq<Msg>, rows: seq<Msg>) {
    |rows| <= |h| && Distinct(rows) && SameMembers(rows, h[|h| - |rows|..])
  }

  /** How many messages of the history are not cached. */
  function Older(h: seq<Msg>, rows: seq<Msg>): int {
    |h| - |rows|
  }

  lemma {:induction false} Cardinality(a: seq<Msg>)
    requires Distinct(a)
    ensures |set m | m in a| == |a|
  {
    if a != [] {
      var n := |a| - 1;
      Cardinality(a[..n]);
      assert (set m | m in a) == (set m | m in a[..n]) + {a[n]};
    }
  }

  /** Two lists of the same members, each once, are equally long. */
  lemma SameSize(a: seq<Msg>, b: seq<Msg>)
    requires Distinct(a) && Distinct(b) && SameMembers(a, b)
    ensures |a| == |b|
  {
    Cardinality(a);
    Cardinality(b);
    assert (set m | m in a) == (set m | m in b);
  }

  /** Storing adds exactly what is missing, and keeps every message once. */
  lemma {:induction false} StoredMembers(h: seq<Msg>, rows: seq<Msg>, served: seq<Msg>)
    requires Timeline(h) && Distinct(rows)
    requires (forall m :: m in rows ==> m in h) && (forall m :: m in served ==> m in h)
    ensures Distinct(Stored(rows, served))
    ensures forall m :: m in Stored(rows, served) <==> m in rows || m in served
    decreases |served|
  {
    if served != [] {
      var m := served[0];
      assert m in h;
      if Known(rows, m.id) {
        SameIdSame(h, rows, m);
        StoredMembers(h, rows, served[1..]);
      } else {
        StoredMembers(h, rows + [m], served[1..]);
      }
    }
  }

  lemma SameIdSame(h: seq<Msg>, rows: seq<Msg>, m: Msg)
    requires Timeline(h) && m in h && (forall r :: r in rows ==> r in h) && Known(rows, m.id)
    ensures m in rows
  {
    var r :| r in rows && r.id == m.id;
    var i :| 0 <= i < |h| && h[i] == m;
    var j :| 0 <= j < |h| && h[j] == r;
    assert i == j;
  }

  lemma TailDistinct(h: seq<Msg>, from: nat)
    requires Timeline(h) && from <= |h|
    ensures Distinct(h[from..])
  {
    forall i, j | 0 <= i < j < |h[from..]|
      ensures h[from..][i] != h[from..][j]
    {
      assert h[from + i].id != h[from + j].id;
    }
  }

  /** The anchor carries the least time cached, and stands at or after the boundary: after it only on a tie. */
  lemma AnchorAt(h: seq<Msg>, rows: seq<Msg>)
    requires Timeline(h) && Newest(h, rows) && rows != []
    ensures var a := rows[Oldest(rows)];
            var p := Position(h, a);
            0 <= Older(h, rows) <= p < |h| && h[p] == a && a.ts == h[Older(h, rows)].ts
  {
    var older := Older(h, rows);
    var k := Oldest(rows);
    var a := rows[k];
    Cached(h, rows, a);
    var i :| older <= i < |h| && h[i] == a;
    SamePosition(h, a, i);
    Cached(h, rows, h[older]);
    var j :| 0 <= j < |rows| && rows[j] == h[older];
    hide Newest;
    assert rows[k].ts <= rows[j].ts;
    assert h[older].ts <= h[i].ts;
  }

  /** What is cached stands at or after the boundary, and the other way round. */
  lemma Cached(h: seq<Msg>, rows: seq<Msg>, m: Msg)
    requires Newest(h, rows)
    ensures m in rows <==> exists i :: Older(h, rows) <= i < |h| && h[i] == m
  {
    hide Distinct;
    var older := Older(h, rows);
    assert h[older..|h|] == h[older..];
    InSlice(h, older, |h|, m);
  }

  lemma SamePosition(h: seq<Msg>, m: Msg, i: nat)
    requires Timeline(h) && i < |h| && h[i] == m
    ensures Position(h, m) == i
  {
  }

  /** Storing a page moves the boundary back to the start of the page, if that is further back. */
  lemma PageStored(h: seq<Msg>, rows: seq<Msg>, p: nat, ms: seq<Msg>)
    requires Timeline(h) && Newest(h, rows) && Older(h, rows) <= p <= |h| && RightBefore(h, p, ms)
    ensures Newest(h, Stored(rows, ms))
    ensures Older(h, Stored(rows, ms)) == if p - |ms| < Older(h, rows) then p - |ms| else Older(h, rows)
  {
    var older, from := Older(h, rows), p - |ms|;
    var lo := if from < older then from else older;
    var rows' := Stored(rows, ms);
    hide Stored, Timeline, Distinct;
    forall m ensures m in rows || m in ms <==> m in h[lo..] {
      TailAndPage(h, older, from, p, m);
    }
    assert forall m :: m in h[lo..] ==> m in h;
    StoredMembers(h, rows, ms);
    TailDistinct(h, lo);
    SameSize(rows', h[lo..]);
  }

  /** A tail and a page that reaches it make one tail. */
  lemma TailAndPage(h: seq<Msg>, older: nat, from: nat, p: nat, m: Msg)
    requires from <= p <= |h| && older <= p
    ensures m in h[older..] || m in h[from..p] <==> m in h[if from < older then from else older..]
  {
    var lo := if from < older then from else older;
    assert h[older..|h|] == h[older..] && h[lo..|h|] == h[lo..];
    InSlice(h, lo, |h|, m);
    InSlice(h, older, |h|, m);
    InSlice(h, from, p, m);
  }

  lemma InSlice(h: seq<Msg>, lo: nat, hi: nat, m: Msg)
    requires lo <= hi <= |h|
    ensures m in h[lo..hi] <==> exists i :: lo <= i < hi && h[i] == m
  {
    if m in h[lo..hi] {
      var i :| 0 <= i < |h[lo..hi]| && h[lo..hi][i] == m;
      assert h[lo + i] == m;
    }
    if i :| lo <= i < hi && h[i] == m {
      assert h[lo..hi][i - lo] == m;
    }
  }

  /** One request from a contiguous cache: what it gains, and what its verdict means. */
  lemma RequestMoves(h: seq<Msg>, answer: Answering, s: State, n: int)
    requires Timeline(h) && Honest(h, answer) && Newest(h, s.rows) && s.rows != []
    ensures var anchor := s.rows[Oldest(s.rows)];
            var p, older := Position(h, anchor), Older(h, s.rows);
            var (s', reply) := Requested(h, answer, s, anchor, n);
            && Newest(h, s'.rows) && s'.asks == s.asks + [Ask(anchor, n)]
            && p < |h| && h[p] == anchor && 0 <= older <= p && anchor.ts == h[older].ts
            && match reply
               case None => s'.rows == s.rows
               case Some((got, end)) =>
                 && (end == Some(NOTHING_MORE) ==> Older(h, s'.rows) == 0)
                 && (end == Some(MORE_BUT_NO_ACCESS) ==> Older(h, s'.rows) > 0 || FirstTied(h))
                 && exists k: nat ::
                   && k <= p && k <= (if n > 0 then n else 0)
                   && (end == Some(NOTHING_MORE) ==> k == p) && (end == Some(MORE_BUT_NO_ACCESS) ==> k < p)
                   && (FullPages(h, answer) && n > 0 ==> Final(end) || k == n)
                   && Older(h, s'.rows) == Moved(older, p, k)
                   && got == older - Older(h, s'.rows) && got <= k
  {
    hide Newest, Stored, RightBefore, Oldest, Position, Timeline;
    AnchorAt(h, s.rows);
    var anchor := s.rows[Oldest(s.rows)];
    var p := Position(h, anchor);
    var r := answer(|s.asks|, p, n);
    if r.Served? {
      assert RightBefore(h, p, r.messages);
      PageFits(h, p, r.messages);
      PageStored(h, s.rows, p, r.messages);
      var k := |r.messages|;
      assert Older(h, Stored(s.rows, r.messages)) == Moved(Older(h, s.rows), p, k);
      if k < p && Moved(Older(h, s.rows), p, k) == 0 {
        TiedAtTheStart(h, p);
      }
    }
  }

  lemma TiedAtTheStart(h: seq<Msg>, p: nat)
    requires Timeline(h) && 0 < p < |h| && h[p].ts == h[0].ts
    ensures FirstTied(h)
  {
    assert h[0].ts <= h[1].ts <= h[p].ts;
  }

  function Moved(older: int, p: int, k: int): int {
    if p - k < older then p - k else older
  }

  lemma PageFits(h: seq<Msg>, p: nat, ms: seq<Msg>)
    requires p <= |h| && RightBefore(h, p, ms)
    ensures |ms| <= p
  {
  }

  // --- what every walk keeps, ties or not -------------------------------------------------------

  /** A truthful phone and a cache that is a newest part of its history. */
  ghost predicate Ready(h: seq<Msg>, answer: Answering, s: State) {
    Timeline(h) && Honest(h, answer) && Newest(h, s.rows)
  }

  /** The cache stays a contiguous newest part, longer by exactly the gain; every request but the last gains. */
  lemma {:induction false} GainKept(h: seq<Msg>, answer: Answering, s: State, gained: int, requests: nat, t: Terms)
    requires Ready(h, answer, s)
    ensures var (s', r) := Walked(h, answer, s, gained, requests, t);
            && Ready(h, answer, s') && Older(h, s'.rows) <= Older(h, s.rows)
            && r.gained - gained == Older(h, s.rows) - Older(h, s'.rows)
            && (gained <= t.count ==> r.gained <= t.count)
            && s.asks <= s'.asks && |s'.asks| - |s.asks| == r.requests - requests
            && 0 <= r.requests - requests <= (if gained < t.count then t.count - gained else 0)
    decreases t.count - gained
  {
    hide Requested, Newest, Honest, Timeline, Oldest, FullPages, Position;
    if gained < t.count && s.rows != [] {
      var anchor := s.rows[Oldest(s.rows)];
      var n := PageSize(t, gained);
      RequestMoves(h, answer, s, n);
      var (s', reply) := Requested(h, answer, s, anchor, n);
      if reply.Some? && reply.value.0 > 0 {
        GainKept(h, answer, s', gained + reply.value.0, requests + 1, t);
      }
    }
  }

  /** Everything from `ts` on, or strictly after it, is cached. */
  ghost predicate Covers(h: seq<Msg>, rows: seq<Msg>, ts: int, inclusive: bool) {
    forall i :: 0 <= i < |h| && (h[i].ts > ts || (inclusive && h[i].ts == ts)) ==> h[i] in rows
  }

  /**
   * The reason given for stopping is true: count is exactly the count, since covers everything after
   * the date, no older means the whole history, and no access leaves messages behind unless the
   * history starts with a tie.
   */
  lemma {:induction false} StopsTruthfully(
    h: seq<Msg>, answer: Answering, s: State, gained: int, requests: nat, t: Terms)
    requires Ready(h, answer, s)
    ensures var (s', r) := Walked(h, answer, s, gained, requests, t);
            match r.stop
            case Count => r.gained == if gained <= t.count then t.count else gained
            case Since =>
              t.since.Some? && Reached(h, s'.rows, t.since.value) && Covers(h, s'.rows, t.since.value, false)
            case NoOlder => Older(h, s'.rows) == 0
            case NoAccess => r.requests > requests && (Older(h, s'.rows) > 0 || FirstTied(h))
            case NoAnchor => s'.rows == [] && r.requests == requests
            case NoReply => r.requests > requests && r.gained < t.count
            case NothingNew => r.requests > requests && r.gained < t.count
    decreases t.count - gained
  {
    hide Requested, Newest, Honest, Oldest, FullPages, Position, Covers;
    if gained < t.count && s.rows != [] {
      var anchor := s.rows[Oldest(s.rows)];
      var n := PageSize(t, gained);
      RequestMoves(h, answer, s, n);
      if t.since.Some? && anchor.ts <= t.since.value {
        CoveredAfter(h, s.rows, t.since.value);
      } else {
        var (s', reply) := Requested(h, answer, s, anchor, n);
        if reply.Some? && !Final(reply.value.1) && reply.value.0 > 0 {
          RowsRemain(h, s'.rows, s.rows);
          GainKept(h, answer, s', gained + reply.value.0, requests + 1, t);
          StopsTruthfully(h, answer, s', gained + reply.value.0, requests + 1, t);
        }
      }
    }
  }

  /** The first two messages share a second. */
  predicate FirstTied(h: seq<Msg>) {
    |h| >= 2 && h[0].ts == h[1].ts
  }

  /** The oldest second cached is not after `ts`. */
  predicate Reached(h: seq<Msg>, rows: seq<Msg>, ts: int) {
    rows != [] && |rows| <= |h| && h[Older(h, rows)].ts <= ts
  }

  lemma RowsRemain(h: seq<Msg>, rows: seq<Msg>, before: seq<Msg>)
    requires Older(h, rows) <= Older(h, before) && before != []
    ensures rows != []
  {
  }

  lemma CoveredAfter(h: seq<Msg>, rows: seq<Msg>, ts: int)
    requires Timeline(h) && Newest(h, rows) && Reached(h, rows, ts)
    ensures Covers(h, rows, ts, false)
  {
    var older := Older(h, rows);
    forall i | 0 <= i < |h| && h[i].ts > ts
      ensures h[i] in rows
    {
      assert h[i] == h[older..][i - older];
    }
  }

  ghost predicate Backwards(asks: seq<Ask>, from: nat, strictly: bool) {
    forall i, j :: from <= i < j < |asks| ==>
      asks[j].anchor.ts < asks[i].anchor.ts || (!strictly && asks[j].anchor.ts == asks[i].anchor.ts)
  }

  /** Anchors never go forward in time, strictly back without shared seconds; no request asks too much. */
  lemma {:induction false} AnchorsGoBack(h: seq<Msg>, answer: Answering, s: State, gained: int, requests: nat, t: Terms)
    requires Ready(h, answer, s) && s.rows != []
    ensures var (s', r) := Walked(h, answer, s, gained, requests, t);
            && s.asks <= s'.asks
            && Backwards(s'.asks, |s.asks|, StrictFrom(h, 0))
            && forall i :: |s.asks| <= i < |s'.asks| ==>
                 s'.asks[i].anchor.ts <= h[Older(h, s.rows)].ts
                 && s'.asks[i].n <= t.page && s'.asks[i].n <= t.count - gained
    decreases t.count - gained
  {
    hide Requested, Newest, Honest, Oldest, FullPages, Position;
    if gained < t.count {
      var anchor := s.rows[Oldest(s.rows)];
      var n := PageSize(t, gained);
      RequestMoves(h, answer, s, n);
      var (s', reply) := Requested(h, answer, s, anchor, n);
      if reply.Some? && reply.value.0 > 0 {
        RowsRemain(h, s'.rows, s.rows);
        AnchorsGoBack(h, answer, s', gained + reply.value.0, requests + 1, t);
      }
    }
  }

  // --- what ties break, exactly -----------------------------------------------------------------

  /** The phone that serves all it is asked for, and says so when there is nothing more. */
  function Plain(h: seq<Msg>): Answering {
    (call: nat, p: nat, n: int) =>
      if p > |h| then Silent
      else
        var k := if n <= 0 then 0 else if n < p then n else p;
        Served(h[p - k..p], if k < n then Some(NOTHING_MORE) else None)
  }

  /** The phone that refuses whatever precedes the anchor. */
  function Refusing(): Answering {
    (call: nat, p: nat, n: int) => Served([], if p > 0 then Some(MORE_BUT_NO_ACCESS) else Some(NOTHING_MORE))
  }

  lemma PlainIsHonest(h: seq<Msg>)
    requires Timeline(h)
    ensures Honest(h, Plain(h)) && FullPages(h, Plain(h))
  {
    forall call: nat, p: nat, n: int | p < |h| && Plain(h)(call, p, n).Served?
      ensures RightBefore(h, p, Plain(h)(call, p, n).messages)
    {
      var k := |Plain(h)(call, p, n).messages|;
      SliceDistinct(h, p - k, p);
    }
  }

  lemma SliceDistinct(h: seq<Msg>, lo: nat, hi: nat)
    requires Timeline(h) && lo <= hi <= |h|
    ensures Distinct(h[lo..hi])
  {
    forall i, j | 0 <= i < j < hi - lo ensures h[lo..hi][i] != h[lo..hi][j] {
      assert h[lo + i].id != h[lo + j].id;
    }
  }

  lemma RefusingIsHonest(h: seq<Msg>)
    ensures Honest(h, Refusing())
  {
    forall call: nat, p: nat, n: int | p < |h|
      ensures RightBefore(h, p, Refusing()(call, p, n).messages)
    {
      assert h[p..p] == [];
    }
  }

  /** A tail of the history as the cache. */
  lemma TailIsNewest(h: seq<Msg>, j: nat)
    requires Timeline(h) && j < |h|
    ensures Newest(h, h[j..]) && Oldest(h[j..]) == 0 && Older(h, h[j..]) == j
  {
    TailDistinct(h, j);
    assert h[|h| - |h[j..]|..] == h[j..];
    var k := Oldest(h[j..]);
    assert h[j..][0] == h[j] && h[j..][k] == h[j + k];
  }

  /**
   * Two messages of one second, the later one cached: the anchor is asked for twice, the second
   * answer holds nothing new, and whatever precedes the pair is never reached.
   */
  lemma TiedRun(h: seq<Msg>, j: nat)
    requires Timeline(h) && 0 < j < |h| && h[j - 1].ts == h[j].ts
    ensures Ready(h, Plain(h), State(h[j..], [])) && FullPages(h, Plain(h))
    ensures var (s', r) := Walked(h, Plain(h), State(h[j..], []), 0, 0, Terms(2, None, 1));
            && s'.asks == [Ask(h[j], 1), Ask(h[j], 1)]
            && r == PageResult(1, 2, NothingNew) && Older(h, s'.rows) == j - 1
  {
    hide Walked, Requested, Oldest, Honest, FullPages, Plain, Newest, Known, Position, Timeline;
    PlainIsHonest(h);
    TailIsNewest(h, j);
    var t := Terms(2, None, 1);
    var ask, more := Ask(h[j], 1), h[j..] + [h[j - 1]];
    var s0, s1, s2 := State(h[j..], []), State(more, [ask]), State(more, [ask, ask]);
    OneBefore(h, 0, j);
    OneBefore(h, 1, j);
    NotAmong(h, j - 1, h[j..], j);
    KnownOnceStored(h[j..], h[j - 1]);
    OneMessage(h, Plain(h), s0, h[j], 1, h[j - 1]);
    OneMessage(h, Plain(h), s1, h[j], 1, h[j - 1]);
    assert [] + [ask] == [ask] && [ask] + [ask] == [ask, ask];
    StillFirst(h, j);
    assert h[j..][0] == h[j] && more[0] == h[j];
    OneStep(h, Plain(h), s0, 0, 0, t, s1, 1);
    OneStep(h, Plain(h), s1, 1, 1, t, s2, 0);
  }

  /** One round that does not end the walk by verdict. */
  lemma OneStep(h: seq<Msg>, answer: Answering, s: State, gained: int, requests: nat, t: Terms, s': State, got: nat)
    requires gained < t.count && s.rows != [] && t.since.None?
    requires Requested(h, answer, s, s.rows[Oldest(s.rows)], PageSize(t, gained)) == (s', Some((got, None)))
    ensures Walked(h, answer, s, gained, requests, t)
            == if got == 0 then (s', PageResult(gained, requests + 1, NothingNew))
               else Walked(h, answer, s', gained + got, requests + 1, t)
  {
    hide Requested;
  }

  lemma PlainPage(h: seq<Msg>, call: nat, p: nat, n: int)
    requires 0 < n <= p <= |h|
    ensures Plain(h)(call, p, n) == Served(h[p - n..p], None)
  {
  }

  lemma KnownOnceStored(rows: seq<Msg>, m: Msg)
    ensures Known(rows + [m], m.id)
  {
    assert m in rows + [m];
  }

  lemma StoreOne(rows: seq<Msg>, m: Msg)
    ensures Stored(rows, [m]) == if Known(rows, m.id) then rows else rows + [m]
  {
    assert [m][1..] == [];
    assert Stored(rows, []) == rows && Stored(rows + [m], []) == rows + [m];
  }

  /** A page of one message: stored if it is not known yet. */
  lemma OneMessage(h: seq<Msg>, answer: Answering, s: State, anchor: Msg, n: int, m: Msg)
    requires answer(|s.asks|, Position(h, anchor), n) == Served([m], None)
    ensures var asks := s.asks + [Ask(anchor, n)];
            Requested(h, answer, s, anchor, n)
            == if Known(s.rows, m.id) then (State(s.rows, asks), Some((0, None)))
               else (State(s.rows + [m], asks), Some((1, None)))
  {
    StoreOne(s.rows, m);
    hide Stored, Position, Known;
  }

  /** Asked for one message, the phone serves the one right before the anchor. */
  lemma OneBefore(h: seq<Msg>, call: nat, j: nat)
    requires Timeline(h) && 0 < j < |h|
    ensures Plain(h)(call, Position(h, h[j]), 1) == Served([h[j - 1]], None)
  {
    SamePosition(h, h[j], j);
    PlainPage(h, call, j, 1);
    hide *;
    assert h[j - 1..j] == [h[j - 1]];
  }

  /** On a tie the row stored first stays the anchor. */
  lemma StillFirst(h: seq<Msg>, j: nat)
    requires Timeline(h) && 0 < j < |h| && h[j - 1].ts == h[j].ts
    ensures Oldest(h[j..] + [h[j - 1]]) == 0
  {
    var more := h[j..] + [h[j - 1]];
    forall i | 0 <= i < |more| ensures more[i].ts >= more[0].ts {
      assert more[i] == if i < |h| - j then h[j + i] else h[j - 1];
    }
  }

  /** A message before a tail is not known to it. */
  lemma NotAmong(h: seq<Msg>, i: nat, rows: seq<Msg>, j: nat)
    requires Timeline(h) && i < j <= |h| && forall m :: m in rows ==> m in h[j..]
    ensures !Known(rows, h[i].id) && h[i] !in rows
  {
    forall m | m in rows ensures m.id != h[i].id {
      assert h[j..|h|] == h[j..];
      InSlice(h, j, |h|, m);
    }
  }

  // --- the date -------------------------------------------------------------------------------

  /** Whatever the phone does: stopping at a date means everything at or after it is cached. */
  ghost predicate SinceCovers(h: seq<Msg>, date: int) {
    forall answer: Answering, s: State, t: Terms ::
      Ready(h, answer, s) && t.since == Some(date) && Walked(h, answer, s, 0, 0, t).1.stop.Since?
      ==> Covers(h, Walked(h, answer, s, 0, 0, t).0.rows, date, true)
  }

  /** That is so exactly for the dates whose second no two messages of the history share. */
  lemma SinceCoversIff(h: seq<Msg>, date: int)
    requires Timeline(h)
    ensures SinceCovers(h, date) <==> !Shared(h, date)
  {
    hide Walked, Covers, Newest, Honest;
    if Shared(h, date) {
      var i, j :| 0 <= i < j < |h| && h[i].ts == date && h[j].ts == date;
      TiedDate(h, i, j, Refusing());
    } else {
      forall answer: Answering, s: State, t: Terms
        | Ready(h, answer, s) && t.since == Some(date) && Walked(h, answer, s, 0, 0, t).1.stop.Since?
        ensures Covers(h, Walked(h, answer, s, 0, 0, t).0.rows, date, true)
      {
        StopsTruthfully(h, answer, s, 0, 0, t);
        GainKept(h, answer, s, 0, 0, t);
        UnsharedCovers(h, Walked(h, answer, s, 0, 0, t).0.rows, date);
      }
    }
  }

  lemma UnsharedCovers(h: seq<Msg>, rows: seq<Msg>, date: int)
    requires Timeline(h) && Newest(h, rows) && Reached(h, rows, date) && !Shared(h, date)
    ensures Covers(h, rows, date, true)
  {
    CoveredAfter(h, rows, date);
    var older := Older(h, rows);
    forall i | 0 <= i < |h| && h[i].ts == date ensures h[i] in rows {
      if i < older {
        assert false;
      }
      Cached(h, rows, h[i]);
    }
  }

  /** Two messages of the date's second, the later one cached: the walk stops at once, without the earlier one. */
  lemma TiedDate(h: seq<Msg>, i: nat, j: nat, answer: Answering)
    requires Timeline(h) && i < j < |h| && h[i].ts == h[j].ts
    ensures Ready(h, Refusing(), State(h[j..], []))
    ensures var t := Terms(1, Some(h[j].ts), 1);
            && Walked(h, answer, State(h[j..], []), 0, 0, t) == (State(h[j..], []), PageResult(0, 0, Since))
            && h[i] !in h[j..] && !Covers(h, h[j..], h[j].ts, true)
  {
    RefusingIsHonest(h);
    TailIsNewest(h, j);
    NotAmong(h, i, h[j..], j);
    assert h[j..][0] == h[j];
  }

  // --- anchors and pages -------------------------------------------------------------------------

  /** Whatever the phone does, anchors go strictly backwards. */
  ghost predicate AlwaysBackwards(h: seq<Msg>) {
    forall answer: Answering, s: State, t: Terms ::
      Ready(h, answer, s) && s.rows != [] ==> Backwards(Walked(h, answer, s, 0, 0, t).0.asks, |s.asks|, true)
  }

  /** With full pages, a walk never ends on a page that brought nothing new. */
  ghost predicate AlwaysGains(h: seq<Msg>) {
    forall answer: Answering, s: State, t: Terms ::
      Ready(h, answer, s) && FullPages(h, answer) && t.page > 0 ==> !Walked(h, answer, s, 0, 0, t).1.stop.NothingNew?
  }

  /** With full pages, at most ceil(count / page) requests. */
  ghost predicate AlwaysFew(h: seq<Msg>) {
    forall answer: Answering, s: State, t: Terms ::
      Ready(h, answer, s) && FullPages(h, answer) && t.page > 0 ==> Few(Walked(h, answer, s, 0, 0, t).1.requests, t)
  }

  predicate Few(requests: nat, t: Terms) {
    requests > 0 ==> (requests - 1) * t.page < t.count
  }

  /** A refused walk leaves messages behind. */
  ghost predicate AlwaysLeaves(h: seq<Msg>) {
    forall answer: Answering, s: State, t: Terms ::
      Ready(h, answer, s) && Walked(h, answer, s, 0, 0, t).1.stop.NoAccess?
      ==> Older(h, Walked(h, answer, s, 0, 0, t).0.rows) > 0
  }

  /** A tie has a tie of neighbours. */
  lemma NeighboursTie(h: seq<Msg>, from: nat)
    requires Timeline(h) && !StrictFrom(h, from)
    ensures exists j :: from < j < |h| && h[j - 1].ts == h[j].ts
  {
    var i, j :| from <= i < j < |h| && h[i].ts >= h[j].ts;
    assert h[i].ts <= h[j - 1].ts <= h[j].ts;
  }

  /** Anchors go strictly backwards in every walk exactly when no two messages of the history share a second. */
  lemma AlwaysBackwardsIff(h: seq<Msg>)
    requires Timeline(h)
    ensures AlwaysBackwards(h) <==> StrictFrom(h, 0)
  {
    hide Walked, Ready, Plain;
    if StrictFrom(h, 0) {
      forall answer: Answering, s: State, t: Terms | Ready(h, answer, s) && s.rows != []
        ensures Backwards(Walked(h, answer, s, 0, 0, t).0.asks, |s.asks|, true)
      {
        AnchorsGoBack(h, answer, s, 0, 0, t);
      }
    } else {
      NeighboursTie(h, 0);
      var j :| 0 < j < |h| && h[j - 1].ts == h[j].ts;
      TiedRun(h, j);
      TailIsNewest(h, j);
      assert h[j..] != [];
      var asks := [Ask(h[j], 1), Ask(h[j], 1)];
      assert asks[0] == asks[1] && !Backwards(asks, 0, true);
    }
  }

  /** So does the walk never stop short of the count on a full page. */
  lemma AlwaysGainsIff(h: seq<Msg>)
    requires Timeline(h)
    ensures AlwaysGains(h) <==> StrictFrom(h, 0)
  {
    hide Walked, Ready, FullPages, Plain;
    if StrictFrom(h, 0) {
      forall answer: Answering, s: State, t: Terms | Ready(h, answer, s) && FullPages(h, answer) && t.page > 0
        ensures !Walked(h, answer, s, 0, 0, t).1.stop.NothingNew?
      {
        PagesCounted(h, answer, s, 0, 0, t);
      }
    } else {
      NeighboursTie(h, 0);
      var j :| 0 < j < |h| && h[j - 1].ts == h[j].ts;
      TiedRun(h, j);
    }
  }

  /** The requests so far were full pages of new messages. */
  predicate SoFar(gained: int, requests: nat, t: Terms) {
    && (requests == 0 ==> gained == 0)
    && Few(requests, t)
    && (gained < t.count ==> gained == requests * t.page)
  }

  lemma {:induction false} PagesCounted(
    h: seq<Msg>, answer: Answering, s: State, gained: int, requests: nat, t: Terms)
    requires Ready(h, answer, s) && FullPages(h, answer) && t.page > 0
    requires StrictFrom(h, 1) && SoFar(gained, requests, t)
    ensures var r := Walked(h, answer, s, gained, requests, t).1;
            Few(r.requests, t) && (StrictFrom(h, 0) ==> !r.stop.NothingNew?)
    decreases t.count - gained
  {
    hide Requested, Newest, Honest, Oldest, FullPages, Position, SoFar, Few;
    KeptFew(gained, requests, t);
    if gained < t.count && s.rows != [] {
      var anchor := s.rows[Oldest(s.rows)];
      var n := PageSize(t, gained);
      RequestMoves(h, answer, s, n);
      var (s', reply) := Requested(h, answer, s, anchor, n);
      OneMoreIsFew(gained, requests, t);
      if reply.Some? && !Final(reply.value.1) {
        var p, older, got := Position(h, anchor), Older(h, s.rows), reply.value.0;
        assert Older(h, s'.rows) == Moved(older, p, n);
        assert p == older || (older == 0 && got == 0 && !StrictFrom(h, 0));
        if got > 0 {
          OneMoreFullPage(gained, requests, t, n);
          PagesCounted(h, answer, s', gained + got, requests + 1, t);
        }
      }
    }
  }

  lemma KeptFew(gained: int, requests: nat, t: Terms)
    requires SoFar(gained, requests, t)
    ensures Few(requests, t)
  {
  }

  lemma OneMoreIsFew(gained: int, requests: nat, t: Terms)
    requires SoFar(gained, requests, t) && gained < t.count
    ensures Few(requests + 1, t)
  {
  }

  lemma OneMoreFullPage(gained: int, requests: nat, t: Terms, n: int)
    requires SoFar(gained, requests, t) && gained < t.count && n == PageSize(t, gained)
    ensures SoFar(gained + n, requests + 1, t)
  {
    assert (requests + 1) * t.page == requests * t.page + t.page;
  }

  /** The newest messages from `j - 1` on, with the first two the wrong way round. */
  function Crossed(h: seq<Msg>, j: nat): seq<Msg>
    requires 0 < j < |h|
  {
    [h[j], h[j - 1]] + h[j + 1..]
  }

  lemma CrossedIsNewest(h: seq<Msg>, j: nat)
    requires Timeline(h) && 0 < j < |h| && h[j - 1].ts == h[j].ts
    ensures Newest(h, Crossed(h, j)) && Older(h, Crossed(h, j)) == j - 1
    ensures Oldest(Crossed(h, j)) == 0 && Crossed(h, j)[0] == h[j] && Known(Crossed(h, j), h[j - 1].id)
  {
    var rows := Crossed(h, j);
    forall i | 0 <= i < |rows| ensures rows[i] == h[Back(j, i)] && rows[i].ts >= h[j].ts {
    }
    forall a, b | 0 <= a < b < |rows| ensures rows[a] != rows[b] {
      assert rows[a] == h[Back(j, a)] && rows[b] == h[Back(j, b)];
    }
    forall m ensures m in rows <==> m in h[j - 1..] {
      CrossedMembers(h, j, m);
    }
    assert rows[1] == h[j - 1];
  }

  /** Where a row of the crossed cache stands in the history. */
  function Back(j: nat, i: nat): nat
    requires 0 < j
  {
    if i == 0 then j else if i == 1 then j - 1 else j - 1 + i
  }

  lemma CrossedMembers(h: seq<Msg>, j: nat, m: Msg)
    requires 0 < j < |h|
    ensures m in Crossed(h, j) <==> m in h[j - 1..]
  {
    assert h[j - 1..] == [h[j - 1], h[j]] + h[j + 1..];
  }

  /** A tie behind a third message: a page of two brings one, and a second request is made for a count of two. */
  lemma TiedPage(h: seq<Msg>, j: nat)
    requires Timeline(h) && 1 < j < |h| && h[j - 1].ts == h[j].ts
    ensures Ready(h, Plain(h), State(Crossed(h, j), [])) && FullPages(h, Plain(h))
    ensures Walked(h, Plain(h), State(Crossed(h, j), []), 0, 0, Terms(2, None, 2)).1.requests >= 2
  {
    hide Walked, Requested, Oldest, Honest, FullPages, Plain, Newest, Known, Position, Timeline, Stored, Crossed;
    PlainIsHonest(h);
    CrossedIsNewest(h, j);
    var rows, t := Crossed(h, j), Terms(2, None, 2);
    var s0, s1 := State(rows, []), State(rows + [h[j - 2]], [Ask(h[j], 2)]);
    PlainPage(h, 0, j, 2);
    SamePosition(h, h[j], j);
    assert h[j - 2..j] == [h[j - 2], h[j - 1]];
    BehindCrossed(h, j);
    KnownMore(rows, h[j - 2], h[j - 1]);
    StoreTwo(rows, h[j - 2], h[j - 1]);
    assert [] + [Ask(h[j], 2)] == [Ask(h[j], 2)];
    PageArrives(h, Plain(h), s0, h[j], 2, [h[j - 2], h[j - 1]]);
    OneStep(h, Plain(h), s0, 0, 0, t, s1, 1);
    RequestMoves(h, Plain(h), s0, 2);
    OneMoreAtLeast(h, Plain(h), s1, 1, 1, t);
  }

  lemma PageArrives(h: seq<Msg>, answer: Answering, s: State, anchor: Msg, n: int, ms: seq<Msg>)
    requires answer(|s.asks|, Position(h, anchor), n) == Served(ms, None)
    ensures Requested(h, answer, s, anchor, n)
            == (State(Stored(s.rows, ms), s.asks + [Ask(anchor, n)]), Some((|Stored(s.rows, ms)| - |s.rows|, None)))
  {
    hide Stored, Position;
  }

  lemma BehindCrossed(h: seq<Msg>, j: nat)
    requires Timeline(h) && 1 < j < |h|
    ensures !Known(Crossed(h, j), h[j - 2].id)
  {
    forall m | m in Crossed(h, j) ensures m in h[j - 1..] {
      CrossedMembers(h, j, m);
    }
    NotAmong(h, j - 2, Crossed(h, j), j - 1);
  }

  lemma KnownMore(rows: seq<Msg>, m: Msg, n: Msg)
    requires Known(rows, n.id)
    ensures Known(rows + [m], n.id)
  {
    var r :| r in rows && r.id == n.id;
    assert r in rows + [m];
  }

  lemma StoreTwo(rows: seq<Msg>, a: Msg, b: Msg)
    requires !Known(rows, a.id) && Known(rows + [a], b.id)
    ensures Stored(rows, [a, b]) == rows + [a]
  {
    assert [a, b][1..] == [b];
    StoreOne(rows + [a], b);
  }

  lemma OneMoreAtLeast(h: seq<Msg>, answer: Answering, s: State, gained: int, requests: nat, t: Terms)
    requires Ready(h, answer, s) && gained < t.count && s.rows != [] && t.since.None?
    ensures Walked(h, answer, s, gained, requests, t).1.requests > requests
  {
    hide Requested, Newest, Honest, Oldest, FullPages, Position;
    var anchor := s.rows[Oldest(s.rows)];
    var n := PageSize(t, gained);
    RequestMoves(h, answer, s, n);
    var (s', reply) := Requested(h, answer, s, anchor, n);
    if reply.Some? && reply.value.0 > 0 {
      GainKept(h, answer, s', gained + reply.value.0, requests + 1, t);
    }
  }

  /** With full pages requests are at most ceil(count / page) exactly when no two share a second from the second on. */
  lemma AlwaysFewIff(h: seq<Msg>)
    requires Timeline(h)
    ensures AlwaysFew(h) <==> StrictFrom(h, 1)
  {
    hide Walked, Ready, FullPages, Plain;
    if StrictFrom(h, 1) {
      forall answer: Answering, s: State, t: Terms | Ready(h, answer, s) && FullPages(h, answer) && t.page > 0
        ensures Few(Walked(h, answer, s, 0, 0, t).1.requests, t)
      {
        PagesCounted(h, answer, s, 0, 0, t);
      }
    } else {
      NeighboursTie(h, 1);
      var j :| 1 < j < |h| && h[j - 1].ts == h[j].ts;
      TiedPage(h, j);
      var t := Terms(2, None, 2);
      assert !Few(Walked(h, Plain(h), State(Crossed(h, j), []), 0, 0, t).1.requests, t);
    }
  }

  /** A refused walk leaves messages behind, exactly when the history does not start with a tie. */
  lemma AlwaysLeavesIff(h: seq<Msg>)
    requires Timeline(h)
    ensures AlwaysLeaves(h) <==> !FirstTied(h)
  {
    hide Walked, Newest, Honest, Reached, Covers;
    if FirstTied(h) {
      TiedStart(h);
    } else {
      forall answer: Answering, s: State, t: Terms
        | Ready(h, answer, s) && Walked(h, answer, s, 0, 0, t).1.stop.NoAccess?
        ensures Older(h, Walked(h, answer, s, 0, 0, t).0.rows) > 0
      {
        StopsTruthfully(h, answer, s, 0, 0, t);
      }
    }
  }

  /** The whole history cached, the second message first: the phone refuses what precedes it, though it is there. */
  lemma TiedStart(h: seq<Msg>)
    requires Timeline(h) && FirstTied(h)
    ensures Ready(h, Refusing(), State(Crossed(h, 1), []))
    ensures var (s', r) := Walked(h, Refusing(), State(Crossed(h, 1), []), 0, 0, Terms(1, None, 1));
            r.stop.NoAccess? && Older(h, s'.rows) == 0
  {
    RefusingIsHonest(h);
    CrossedIsNewest(h, 1);
    SamePosition(h, h[1], 1);
    assert Refusing()(0, 1, 1) == Served([], Some(MORE_BUT_NO_ACCESS));
    hide Crossed, Honest, Newest, Refusing, Oldest, Position;
    assert Stored(Crossed(h, 1), []) == Crossed(h, 1);
  }

  /** The smallest such history: one message, then two in the next second, only the last one cached. */
  lemma TiedSecond(answer: Answering)
    ensures var h := [Msg(4, "C"), Msg(5, "A"), Msg(5, "B")];
            && Timeline(h)
            && Walked(h, answer, State(h[2..], []), 0, 0, Terms(1, Some(5), 1)).1.stop.Since? && h[1] !in h[2..]
            && Walked(h, Plain(h), State(h[2..], []), 0, 0, Terms(2, None, 1)).1 == PageResult(1, 2, NothingNew)
  {
    hide Walked, Plain;
    var h := [Msg(4, "C"), Msg(5, "A"), Msg(5, "B")];
    assert Timeline(h) by {
      assert "A" != "B" && "A" != "C" && "B" != "C";
    }
    TiedDate(h, 1, 2, answer);
    TiedRun(h, 2);
  }
}
