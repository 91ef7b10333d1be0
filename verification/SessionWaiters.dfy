/** What happens to the waiters of a session over whole runs. */
module SessionWaiters {
  import opened Nodes
  import opened Session

  // --- completion is final ---------------------------------------------------------------

  /** One step never changes a completed waiter, and never what any waiter waits for. */
  lemma StepIsFinal(c: Config, s: State, e: Event, f: nat)
    requires f < |s.waiters|
    ensures var ws := Next(c, s, e).waiters;
            && f < |ws| && ws[f].kind == s.waiters[f].kind && ws[f].id == s.waiters[f].id
            && (!s.waiters[f].outcome.Pending? ==> ws[f] == s.waiters[f])
  {
    hide Responses, GotOut, Attempted;
  }

  /** So over any run a waiter completes at most once: its first outcome is its outcome forever. */
  lemma {:induction false} CompletesOnce(c: Config, s: State, es: seq<Event>, f: nat)
    requires f < |s.waiters|
    ensures var ws := Run(c, s, es).waiters;
            && f < |ws| && ws[f].kind == s.waiters[f].kind && ws[f].id == s.waiters[f].id
            && (!s.waiters[f].outcome.Pending? ==> ws[f] == s.waiters[f])
    decreases |es|
  {
    hide Next;
    if es != [] {
      StepIsFinal(c, s, es[0], f);
      CompletesOnce(c, Next(c, s, es[0]), es[1..], f);
    }
  }

  // --- answers are the right ones -----------------------------------------------------------

  function TagOf(k: Kind): string {
    if k.Iq? then "iq" else "ack"
  }

  /** Every table entry points at a waiter of that table and id. */
  ghost predicate TablesPoint(s: State) {
    forall k: Kind, id: string :: id in s.Table(k) ==>
      s.Table(k)[id] < |s.waiters| && s.waiters[s.Table(k)[id]].kind == k && s.waiters[s.Table(k)[id]].id == id
  }

  /** A waiter's answer carries the tag of its table and the id it waits for. */
  ghost predicate AnswersMatch(s: State) {
    forall f :: 0 <= f < |s.waiters| && s.waiters[f].outcome.Answered? ==>
      && s.waiters[f].outcome.node.tag == TagOf(s.waiters[f].kind)
      && IdOf(s.waiters[f].outcome.node) == s.waiters[f].id
  }

  lemma StepMatches(c: Config, s: State, e: Event)
    requires TablesPoint(s) && AnswersMatch(s)
    ensures TablesPoint(Next(c, s, e)) && AnswersMatch(Next(c, s, e))
  {
    StepPoints(c, s, e);
    hide TablesPoint, Responses, GotOut, Attempted, IdOf;
    var s' := Next(c, s, e);
    forall f | 0 <= f < |s'.waiters| && s'.waiters[f].outcome.Answered?
      ensures s'.waiters[f].outcome.node.tag == TagOf(s'.waiters[f].kind)
      ensures IdOf(s'.waiters[f].outcome.node) == s'.waiters[f].id
    {
      if f < |s.waiters| {
        StepIsFinal(c, s, e, f);
        if s.waiters[f].outcome.Pending? {
          AnsweredBy(c, s, e, f);
        }
      }
    }
  }

  lemma StepPoints(c: Config, s: State, e: Event)
    requires TablesPoint(s)
    ensures TablesPoint(Next(c, s, e))
  {
    hide Next;
    var s' := Next(c, s, e);
    forall k: Kind, id: string | id in s'.Table(k)
      ensures s'.Table(k)[id] < |s'.waiters|
      ensures s'.waiters[s'.Table(k)[id]].kind == k && s'.waiters[s'.Table(k)[id]].id == id
    {
      EntryAfter(c, s, e, k, id);
      if id in s.Table(k) && s'.Table(k)[id] == s.Table(k)[id] {
        StepIsFinal(c, s, e, s.Table(k)[id]);
      }
    }
  }

  /** An entry after a step is a new waiter's, or stood there before. */
  lemma EntryAfter(c: Config, s: State, e: Event, k: Kind, id: string)
    requires id in Next(c, s, e).Table(k)
    ensures var s' := Next(c, s, e);
            || (id in s.Table(k) && s'.Table(k)[id] == s.Table(k)[id])
            || (s'.Table(k)[id] == |s.waiters| && |s'.waiters| == |s.waiters| + 1
                && s'.waiters[|s.waiters|] == Waiter(k, id, Pending))
  {
    hide Responses, GotOut, Attempted, IdOf, SetOutcome;
  }

  /** Only an awaited stanza answers, and only the waiter its table names. */
  lemma AnsweredBy(c: Config, s: State, e: Event, f: nat)
    requires TablesPoint(s) && f < |s.waiters| && s.waiters[f].outcome.Pending?
    requires f < |Next(c, s, e).waiters| && Next(c, s, e).waiters[f].outcome.Answered?
    ensures var o := Next(c, s, e).waiters[f].outcome;
            o.node.tag == TagOf(s.waiters[f].kind) && IdOf(o.node) == s.waiters[f].id
  {
    hide Responses, GotOut, Attempted, IdOf;
    if e.Frame? {
      var k, id := KindOf(e.node), IdOf(e.node);
      assert Solicited(s, e.node);
      assert id in s.Table(k) && s.Table(k)[id] == f;
    }
  }

  /** Over any run, a result only ever comes from a stanza of the right tag carrying the waiter's id. */
  lemma {:induction false} RunMatches(c: Config, s: State, es: seq<Event>)
    requires TablesPoint(s) && AnswersMatch(s)
    ensures TablesPoint(Run(c, s, es)) && AnswersMatch(Run(c, s, es))
    decreases |es|
  {
    hide Next, TablesPoint, AnswersMatch;
    if es != [] {
      StepMatches(c, s, es[0]);
      RunMatches(c, Next(c, s, es[0]), es[1..]);
    }
  }

  lemma RunPoints(c: Config, es: seq<Event>)
    ensures TablesPoint(Run(c, START, es)) && AnswersMatch(Run(c, START, es))
  {
    RunMatches(c, START, es);
  }

  // --- who is left waiting ----------------------------------------------------------------------

  /** This event completes a waiter that stands in its table: an answer, a failure, or its own cancellation. */
  predicate Completes(e: Event, f: nat, key: (Kind, string)) {
    match e
    case Frame(n, _, _) => n.tag == TagOf(key.0) && IdOf(n) == key.1
    case Close => true
    case Stop => true
    case Cancel(g) => g == f
    case _ => false
  }

  /** This event takes the table entry of a key away from the waiter it points at. */
  predicate Takes(before: seq<Event>, e: Event, key: (Kind, string)) {
    match e
    case Register(k, id) => (k, id) == key
    case Finish(g) => g < |Keys(before)| && Keys(before)[g] == key
    case _ => false
  }

  /** Not registered yet; pending and in its table; pending but out of reach; completed. */
  datatype Fate = Unborn | Open | Adrift | Settled

  /** The fate of a registered waiter after one more event. */
  function After(fate: Fate, before: seq<Event>, e: Event, f: nat, key: (Kind, string)): Fate {
    match fate
    case Open => if Completes(e, f, key) then Settled else if Takes(before, e, key) then Adrift else Open
    case Adrift => if e == Cancel(f) then Settled else Adrift
    case _ => fate
  }

  /** What the events alone say became of the f-th waiter. */
  function FateOf(es: seq<Event>, f: nat): (fate: Fate)
    ensures fate == Unborn <==> f >= |Keys(es)|
    decreases |es|
  {
    if es == [] then Unborn
    else
      var e, before := es[|es| - 1], es[..|es| - 1];
      if f < |Keys(before)| then After(FateOf(before, f), before, e, f, Keys(before)[f])
      else if e.Register? && |Keys(before)| == f then Open
      else Unborn
  }

  /** The table entry under a waiter's own id points at it. */
  predicate InReach(s: State, f: nat)
    requires f < |s.waiters|
  {
    var w := s.waiters[f];
    w.id in s.Table(w.kind) && s.Table(w.kind)[w.id] == f
  }

  /** The state agrees with the fate: pending exactly when open or adrift, in reach when open and not when adrift. */
  predicate Agrees(s: State, f: nat, fate: Fate)
    requires f < |s.waiters|
  {
    && (s.waiters[f].outcome.Pending? <==> fate.Open? || fate.Adrift?)
    && (fate.Open? ==> InReach(s, f))
    && (fate.Adrift? ==> !InReach(s, f))
  }

  lemma {:induction false} FateAgrees(c: Config, es: seq<Event>, f: nat)
    requires f < |Keys(es)|
    ensures f < |Run(c, START, es).waiters| && Agrees(Run(c, START, es), f, FateOf(es, f))
    decreases |es|
  {
    hide Run, Next, TablesPoint, AnswersMatch, Agrees, Completes, Takes;
    var n := |es| - 1;
    var before, s := es[..n], Run(c, START, es[..n]);
    RunKeys(c, es);
    RunKeys(c, before);
    RunPoints(c, before);
    assert es[..n + 1] == es;
    RunStep(c, START, es, n);
    if f < |Keys(before)| {
      FateAgrees(c, before, f);
      FateStep(c, s, before, es[n], f, FateOf(before, f));
    } else {
      FateBegins(c, s, es[n], f);
    }
  }

  lemma FateBegins(c: Config, s: State, e: Event, f: nat)
    requires f == |s.waiters| && e.Register?
    ensures f < |Next(c, s, e).waiters| && Agrees(Next(c, s, e), f, Open)
  {
  }

  lemma FateStep(c: Config, s: State, before: seq<Event>, e: Event, f: nat, fate: Fate)
    requires TablesPoint(s) && f < |s.waiters| && fate != Unborn && Agrees(s, f, fate)
    requires |s.waiters| == |Keys(before)|
    requires forall g :: 0 <= g < |s.waiters| ==> (s.waiters[g].kind, s.waiters[g].id) == Keys(before)[g]
    ensures f < |Next(c, s, e).waiters|
    ensures var next := After(fate, before, e, f, Keys(before)[f]);
            Agrees(Next(c, s, e), f, next)
  {
    hide Next, IdOf, TablesPoint, InReach, FailWaiters;
    match e
    case Frame(n, _, _) =>
      FrameFate(c, s, e, f);
      FrameKeepsReach(c, s, e, f);
    case Close => FailFate(c, s, e, f);
    case Stop => FailFate(c, s, e, f);
    case _ => EntryFate(c, s, e, f);
  }

  lemma FailFate(c: Config, s: State, e: Event, f: nat)
    requires (e.Close? || e.Stop?) && TablesPoint(s) && f < |s.waiters|
    ensures var s', w := Next(c, s, e), s.waiters[f];
            && s'.iq == map[] && s'.ack == map[]
            && f < |s'.waiters| && s'.waiters[f].kind == w.kind && s'.waiters[f].id == w.id && !InReach(s', f)
            && (s'.waiters[f].outcome.Pending? <==> w.outcome.Pending? && !InReach(s, f))
  {
    FailedOut(s, f);
  }

  /** Registering, leaving and cancelling: what they do to one waiter's outcome and reach. */
  lemma EntryFate(c: Config, s: State, e: Event, f: nat)
    requires TablesPoint(s) && f < |s.waiters| && (e.Register? || e.Cancel? || e.Finish?)
    ensures var s', w := Next(c, s, e), s.waiters[f];
            && f < |s'.waiters| && s'.waiters[f].kind == w.kind && s'.waiters[f].id == w.id
            && (s'.waiters[f].outcome.Pending? <==> w.outcome.Pending? && e != Cancel(f))
            && (InReach(s', f) <==>
                  && InReach(s, f)
                  && match e
                     case Register(k, id) => (k, id) != (w.kind, w.id)
                     case Finish(g) => g >= |s.waiters| || (s.waiters[g].kind, s.waiters[g].id) != (w.kind, w.id)
                     case _ => true)
  {
    hide TablesPoint;
  }

  /** A stanza completes exactly the waiter its tag and id find in reach. */
  lemma FrameFate(c: Config, s: State, e: Event, f: nat)
    requires e.Frame? && TablesPoint(s) && f < |s.waiters|
    ensures var s' := Next(c, s, e);
            && f < |s'.waiters| && s'.iq == s.iq && s'.ack == s.ack
            && s'.waiters[f].kind == s.waiters[f].kind && s'.waiters[f].id == s.waiters[f].id
            && (s'.waiters[f].outcome.Pending? <==>
                  s.waiters[f].outcome.Pending?
                  && !(InReach(s, f) && e.node.tag == TagOf(s.waiters[f].kind) && IdOf(e.node) == s.waiters[f].id))
  {
    hide Responses, GotOut, Attempted, IdOf;
    if Solicited(s, e.node) {
      var k, id := KindOf(e.node), IdOf(e.node);
      assert id in s.Table(k);
    }
  }

  /** Failing the waiters completes exactly the pending ones in reach. */
  lemma FailedOut(s: State, f: nat)
    requires TablesPoint(s) && f < |s.waiters|
    ensures var w := FailWaiters(s).waiters[f];
            && w.kind == s.waiters[f].kind && w.id == s.waiters[f].id
            && (w.outcome.Pending? <==> s.waiters[f].outcome.Pending? && !InReach(s, f))
  {
    var w := s.waiters[f];
    if InReach(s, f) {
      assert f in s.Table(w.kind).Values;
    } else {
      forall k: Kind ensures f !in s.Table(k).Values {
        assert forall id :: id in s.Table(k) ==> s.Table(k)[id] != f;
      }
      assert s.Table(Iq) == s.iq && s.Table(Ack) == s.ack;
    }
  }

  /** The `f`-th registration stands at position `r`. */
  predicate RegisteredAt(es: seq<Event>, f: nat, r: nat) {
    r < |es| && es[r].Register? && |Keys(es[..r])| == f
  }

  function KeyOf(e: Event): (Kind, string)
    requires e.Register?
  {
    (e.kind, e.id)
  }

  /** Before position `n`: entry taken at `i` with nothing completing it from `r` to there, and not cancelled since. */
  ghost predicate TakenBy(es: seq<Event>, n: nat, f: nat, r: nat, i: nat)
    requires n <= |es| && RegisteredAt(es, f, r)
  {
    && r < i < n
    && Takes(es[..i], es[i], KeyOf(es[r]))
    && !Completed(es, i, f, r)
    && forall m :: i < m < n ==> es[m] != Cancel(f)
  }

  ghost predicate TakenBefore(es: seq<Event>, n: nat, f: nat, r: nat)
    requires n <= |es| && RegisteredAt(es, f, r)
  {
    exists i: nat :: TakenBy(es, n, f, r, i)
  }

  /** Something from `r` up to `n` completes the waiter while it stands in its table. */
  ghost predicate Completed(es: seq<Event>, n: nat, f: nat, r: nat)
    requires n <= |es| && RegisteredAt(es, f, r)
  {
    exists m :: r < m < n && Completes(es[m], f, KeyOf(es[r]))
  }

  /**
   * Registered, then its entry taken by a registration or a departure under the same table and id
   * while no answer, failure or cancellation had completed it, and never cancelled after that.
   */
  ghost predicate Taken(es: seq<Event>, f: nat) {
    exists r: nat, i: nat :: RegisteredAt(es, f, r) && TakenBy(es, |es|, f, r, i)
  }

  lemma {:induction false} KeyStands(es: seq<Event>, f: nat, r: nat, n: nat)
    requires RegisteredAt(es, f, r) && r < n <= |es|
    ensures f < |Keys(es[..n])| && Keys(es[..n])[f] == KeyOf(es[r])
    decreases n
  {
    assert es[..n][..n - 1] == es[..n - 1];
    if r < n - 1 {
      KeyStands(es, f, r, n - 1);
    }
  }

  /** The fate of a waiter from its registration on. */
  lemma {:induction false} FateSince(es: seq<Event>, f: nat, r: nat, n: nat)
    requires RegisteredAt(es, f, r) && r < n <= |es|
    ensures FateOf(es[..n], f).Open? ==> !Completed(es, n, f, r)
    ensures FateOf(es[..n], f).Settled? ==> Completed(es, n, f, r)
    ensures FateOf(es[..n], f).Adrift? <==> TakenBefore(es, n, f, r)
    decreases n
  {
    hide Completes, Takes, Keys;
    assert es[..n][..n - 1] == es[..n - 1];
    if r < n - 1 {
      KeyStands(es, f, r, n - 1);
      FateSince(es, f, r, n - 1);
      SinceStep(es, f, r, n, FateOf(es[..n - 1], f));
    } else {
      assert FateOf(es[..n - 1], f) == Unborn;
    }
  }

  lemma SinceStep(es: seq<Event>, f: nat, r: nat, n: nat, fate: Fate)
    requires RegisteredAt(es, f, r) && r < n - 1 && n <= |es| && fate != Unborn
    requires fate.Open? ==> !Completed(es, n - 1, f, r)
    requires fate.Settled? ==> Completed(es, n - 1, f, r)
    requires fate.Adrift? <==> TakenBefore(es, n - 1, f, r)
    ensures var next := After(fate, es[..n - 1], es[n - 1], f, KeyOf(es[r]));
            && (next.Open? ==> !Completed(es, n, f, r))
            && (next.Settled? ==> Completed(es, n, f, r))
            && (next.Adrift? <==> TakenBefore(es, n, f, r))
  {
    var e := es[n - 1];
    var next := After(fate, es[..n - 1], e, f, KeyOf(es[r]));
    if fate.Adrift? {
      var i: nat :| TakenBy(es, n - 1, f, r, i);
      if next.Adrift? {
        assert TakenBy(es, n, f, r, i);
      }
    }
    if fate.Open? && next.Adrift? {
      assert TakenBy(es, n, f, r, n - 1);
    }
    if TakenBefore(es, n, f, r) {
      var i: nat :| TakenBy(es, n, f, r, i);
      if i < n - 1 {
        assert TakenBy(es, n - 1, f, r, i);
        assert es[n - 1] != Cancel(f);
      } else {
        assert i == n - 1 && !Completes(e, f, KeyOf(es[r]));
      }
    }
  }

  /** Where a registered waiter was registered. */
  lemma {:induction false} Registration(es: seq<Event>, f: nat) returns (r: nat)
    requires f < |Keys(es)|
    ensures RegisteredAt(es, f, r) && Keys(es)[f] == KeyOf(es[r])
    decreases |es|
  {
    var n := |es| - 1;
    var before := es[..n];
    if f < |Keys(before)| {
      r := Registration(before, f);
      assert before[..r] == es[..r];
    } else {
      r := n;
    }
  }

  lemma {:induction false} KeysGrow(es: seq<Event>, r: nat, q: nat)
    requires r < q <= |es| && es[r].Register?
    ensures |Keys(es[..r])| < |Keys(es[..q])|
    decreases q
  {
    assert es[..q][..q - 1] == es[..q - 1];
    if r < q - 1 {
      KeysGrow(es, r, q - 1);
    }
  }

  lemma RegisteredOnce(es: seq<Event>, f: nat, r: nat, q: nat)
    requires RegisteredAt(es, f, r) && RegisteredAt(es, f, q)
    ensures r == q
  {
    if r < q {
      KeysGrow(es, r, q);
    } else if q < r {
      KeysGrow(es, q, r);
    }
  }

  /** Adrift means taken while open. */
  lemma AdriftIsTaken(es: seq<Event>, f: nat)
    requires f < |Keys(es)|
    ensures FateOf(es, f).Adrift? <==> Taken(es, f)
  {
    hide TakenBy, FateOf, RegisteredAt, Keys;
    var r := Registration(es, f);
    assert es[..|es|] == es;
    RegisteredInside(es, f, r);
    FateSince(es, f, r, |es|);
    if q: nat, i: nat :| RegisteredAt(es, f, q) && TakenBy(es, |es|, f, q, i) {
      RegisteredOnce(es, f, r, q);
    }
  }

  lemma RegisteredInside(es: seq<Event>, f: nat, r: nat)
    requires RegisteredAt(es, f, r)
    ensures r < |es|
  {
  }

  /**
   * After the waiters are failed, by a closed socket or by stopping, both tables are empty, and a
   * waiter is still pending exactly when its entry was taken from it while it was open.
   */
  lemma LeftPendingIff(c: Config, es: seq<Event>, e: Event, f: nat)
    requires (e.Close? || e.Stop?) && f < |Keys(es)|
    ensures var s := Run(c, START, es + [e]);
            && s.iq == map[] && s.ack == map[] && f < |s.waiters|
            && (s.waiters[f].outcome.Pending? <==> Taken(es, f))
  {
    hide Run, TablesPoint, AnswersMatch, Taken, FateOf;
    var all := es + [e];
    assert all[..|es| + 1] == all && all[..|es|] == es;
    RunStep(c, START, all, |es|);
    RunPoints(c, es);
    FateAgrees(c, es, f);
    FailedOut(Run(c, START, es), f);
    AdriftIsTaken(es, f);
  }

  /** A waiter that leaves is not the one its table entry points at, then or later. */
  lemma {:induction false} FinishedIsGone(c: Config, es: seq<Event>, f: nat, i: nat)
    requires i < |es| && es[i] == Finish(f) && f < |Keys(es[..i])|
    ensures f < |Run(c, START, es).waiters| && !InReach(Run(c, START, es), f)
    decreases |es|
  {
    hide Run, Next, InReach, TablesPoint, AnswersMatch;
    var n := |es| - 1;
    var before := es[..n];
    assert es[..n + 1] == es;
    RunStep(c, START, es, n);
    RunKeys(c, before);
    RunPoints(c, before);
    if i < n {
      assert before[..i] == es[..i];
      FinishedIsGone(c, before, f, i);
    }
    OutOfReach(c, Run(c, START, before), es[n], f);
  }

  lemma OutOfReach(c: Config, s: State, e: Event, f: nat)
    requires TablesPoint(s) && f < |s.waiters| && (e == Finish(f) || !InReach(s, f))
    ensures f < |Next(c, s, e).waiters| && !InReach(Next(c, s, e), f)
  {
    hide Next, TablesPoint, InReach;
    match e
    case Frame(_, _, _) => FrameKeepsReach(c, s, e, f);
    case Close => NothingInReach(c, s, e, f);
    case Stop => NothingInReach(c, s, e, f);
    case _ => EntryFate(c, s, e, f);
  }

  lemma FrameKeepsReach(c: Config, s: State, e: Event, f: nat)
    requires e.Frame? && TablesPoint(s) && f < |s.waiters|
    ensures f < |Next(c, s, e).waiters| && InReach(Next(c, s, e), f) == InReach(s, f)
  {
    FrameFate(c, s, e, f);
  }

  lemma NothingInReach(c: Config, s: State, e: Event, f: nat)
    requires (e.Close? || e.Stop?) && f < |s.waiters|
    ensures f < |Next(c, s, e).waiters| && !InReach(Next(c, s, e), f)
  {
  }

  // --- ids and their reuse ---------------------------------------------------------------------

  /** No id is registered twice under the same table. */
  ghost predicate DistinctIds(es: seq<Event>) {
    forall i, j :: 0 <= i < j < |es| && es[i].Register? && es[j].Register? ==> es[i] != es[j]
  }

  /** With distinct ids, only a waiter that left while open, uncancelled, can still be pending. */
  lemma NobodyLeftWaiting(c: Config, es: seq<Event>, e: Event, f: nat)
    requires DistinctIds(es) && (e.Close? || e.Stop?) && f < |Keys(es)| && Finish(f) !in es
    ensures var ws := Run(c, START, es + [e]).waiters; f < |ws| && !ws[f].outcome.Pending?
  {
    hide Run, Keys;
    LeftPendingIff(c, es, e, f);
    if r: nat, i: nat :| RegisteredAt(es, f, r) && TakenBy(es, |es|, f, r, i) {
      KeyStands(es, f, r, i);
      if es[i].Finish? {
        SameKeySameWaiter(es, i, f, es[i].waiter);
      }
    }
  }

  lemma SameKeySameWaiter(es: seq<Event>, n: nat, f: nat, g: nat)
    requires DistinctIds(es) && n <= |es| && f < |Keys(es[..n])| && g < |Keys(es[..n])|
    requires Keys(es[..n])[f] == Keys(es[..n])[g]
    ensures f == g
  {
    var r := Registration(es[..n], f);
    var q := Registration(es[..n], g);
    assert es[..n][r] == es[r] && es[..n][q] == es[q];
    assert es[r] == es[q];
  }

  /** With distinct ids, the id of a waiter that left is in its table no more, then or later. */
  lemma FinishedIdIsAbsent(c: Config, es: seq<Event>, f: nat, i: nat)
    requires DistinctIds(es) && i < |es| && es[i] == Finish(f) && f < |Keys(es[..i])|
    ensures var s := Run(c, START, es);
            f < |s.waiters| && s.waiters[f].id !in s.Table(s.waiters[f].kind)
  {
    hide Run, Keys;
    FinishedIsGone(c, es, f, i);
    RunKeys(c, es);
    RunPoints(c, es);
    var s := Run(c, START, es);
    var w := s.waiters[f];
    if w.id in s.Table(w.kind) {
      assert es[..|es|] == es;
      SameKeySameWaiter(es, |es|, f, s.Table(w.kind)[w.id]);
    }
  }

  /** An id used again after its first request was answered and left: nobody is left pending. */
  lemma ReusedAfterwards(c: Config, n: Node, now: real)
    requires n.tag == "iq" && IdOf(n) == "1"
    ensures var es := [Register(Iq, "1"), Frame(n, now, []), Finish(0), Register(Iq, "1")];
            !Taken(es, 0) && !Taken(es, 1)
  {
    var es := [Register(Iq, "1"), Frame(n, now, []), Finish(0), Register(Iq, "1")];
    KeysOfReuse(n, now);
    assert Completes(es[1], 0, KeyOf(es[0]));
  }

  lemma KeysOfReuse(n: Node, now: real)
    ensures var es := [Register(Iq, "1"), Frame(n, now, []), Finish(0), Register(Iq, "1")];
            && Keys(es[..0]) == [] && Keys(es[..1]) == [(Iq, "1")] && Keys(es[..2]) == [(Iq, "1")]
            && Keys(es[..3]) == [(Iq, "1")]
  {
    var es := [Register(Iq, "1"), Frame(n, now, []), Finish(0), Register(Iq, "1")];
    assert es[..1][..0] == es[..0] && es[..2][..1] == es[..1] && es[..3][..2] == es[..2];
  }

  /** An id used while its first request still waits: stopping leaves that one pending, until it is cancelled. */
  lemma ReusedWhileOpen(c: Config)
    ensures var es := [Register(Iq, "1"), Register(Iq, "1")];
            var ws := Run(c, START, es + [Stop]).waiters;
            && Taken(es, 0) && !Taken(es, 1) && |ws| == 2 && ws[0].outcome.Pending? && !ws[1].outcome.Pending?
            && !Taken(es + [Cancel(0)], 0)
  {
    hide Run;
    var es := [Register(Iq, "1"), Register(Iq, "1")];
    var more := es + [Cancel(0)];
    assert es[..1][..0] == es[..0] && es[..2] == es && es[..2][..1] == es[..1];
    assert Keys(es[..0]) == [] && Keys(es[..1]) == [(Iq, "1")] && Keys(es) == [(Iq, "1"), (Iq, "1")];
    assert RegisteredAt(es, 0, 0) && TakenBy(es, 2, 0, 0, 1);
    LeftPendingIff(c, es, Stop, 0);
    LeftPendingIff(c, es, Stop, 1);
    assert (es + [Stop])[..2] == es;
    assert Keys(es + [Stop]) == Keys(es);
    RunKeys(c, es + [Stop]);
    assert more[2] == Cancel(0);
    forall r: nat, i: nat | RegisteredAt(more, 0, r)
      ensures !TakenBy(more, 3, 0, r, i)
    {
      assert i < 2 ==> more[2] == Cancel(0);
      assert i == 2 ==> !Takes(more[..2], more[2], KeyOf(more[r]));
    }
  }

  // --- the idle clock ---------------------------------------------------------------------------

  /** A solicited reply moves neither the idle clock nor the reader's replies; anything else is heard at its time. */
  lemma SolicitedIsSilent(c: Config, es: seq<Event>, n: Node, now: real, extras: seq<string>)
    ensures var s, s' := Run(c, START, es), Next(c, Run(c, START, es), Frame(n, now, extras));
            if IsAnswer(es, n) then
              s'.lastUnsolicited == s.lastUnsolicited && s'.heard == s.heard && s'.replies == s.replies
            else s'.lastUnsolicited == now && s'.heard == s.heard + [now]
  {
    hide Run, Responses;
    TablesAreAwaited(c, es, Iq, IdOf(n));
    TablesAreAwaited(c, es, Ack, IdOf(n));
  }
}
