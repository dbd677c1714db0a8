/**
  * The relay between a PostgreSQL client and its upstream. One thread carries client messages up, past the statement
  * policy and with a mode that skips to the next Sync after a rejected Parse; another carries server messages down.
  * Both write to the client under one lock, so a run is an interleaving of whole messages.
  */
module PgRelay {
  import opened SqlPolicy

  datatype Frontend = Terminate | Query(sql: string) | Parse(sql: string) | FunctionCall | Sync
    | OtherFrontend(tag: int)

  datatype Backend = ReadyForQuery(status: char) | ErrorResponse(reason: RejectReason) | OtherBackend(tag: int)

  /** A message on the client's side, and whether the proxy made it up. */
  datatype Written = Written(msg: Backend, synthetic: bool)

  /** The state both threads work on, with everything sent so far. */
  datatype State = State(skip: bool, txStatus: char, closed: bool, sent: seq<Frontend>, written: seq<Written>)

  /** After the handshake, which ends with an idle ReadyForQuery. */
  const START := State(false, 'I', false, [], [Written(ReadyForQuery('I'), false)])

  /** A message from the client, with whether writing upstream succeeded if that was tried; or one from the server. */
  datatype Event = FromClient(received: Frontend, flushed: bool) | FromServer(reply: Backend)

  type Policy = string -> Verdict

  function Forward(s: State, m: Frontend, flushed: bool): State {
    s.(sent := s.sent + [m], closed := !flushed || m.Terminate?)
  }

  /** writeReject. */
  function RejectTo(s: State, reason: RejectReason, withReady: bool): State {
    s.(written := s.written + [Written(ErrorResponse(reason), true)]
                  + if withReady then [Written(ReadyForQuery(s.txStatus), true)] else [])
  }

  /** One turn of clientToServer. */
  function ClientStep(policy: Policy, s: State, m: Frontend, flushed: bool): State {
    match m
    case Terminate => Forward(s, m, flushed)
    case Query(sql) =>
      var t := s.(skip := false);
      var v := policy(sql);
      if v.Reject? then RejectTo(t, v.reason, true) else Forward(t, m, flushed)
    case Parse(sql) =>
      var v := policy(sql);
      if v.Reject? then RejectTo(s, v.reason, false).(skip := true) else Forward(s, m, flushed)
    case FunctionCall => if s.skip then s else RejectTo(s, RejectFunctionCall, true)
    case Sync =>
      if s.skip then s.(skip := false, written := s.written + [Written(ReadyForQuery(s.txStatus), true)])
      else Forward(s, m, flushed)
    case OtherFrontend(_) => if s.skip then s else Forward(s, m, flushed)
  }

  /** writeClient for one message. */
  function ServerStep(s: State, m: Backend): State {
    s.(txStatus := if m.ReadyForQuery? then m.status else s.txStatus, written := s.written + [Written(m, false)])
  }

  /** A closed relay reads no more from the client. */
  function Step(policy: Policy, s: State, e: Event): State {
    match e
    case FromClient(m, flushed) => if s.closed then s else ClientStep(policy, s, m, flushed)
    case FromServer(m) => ServerStep(s, m)
  }

  /** The state after any interleaving of the two threads. */
  function Run(policy: Policy, events: seq<Event>): State {
    if events == [] then START else Step(policy, Run(policy, events[..|events| - 1]), events[|events| - 1])
  }

  // ---- the class

  /** relay. */
  class Relay {
    const policy: Policy
    var skipExtended: bool
    var txStatus: char
    var closed: bool
    var sent: seq<Frontend>
    var written: seq<Written>

    ghost function View(): State
      reads this
    {
      State(skipExtended, txStatus, closed, sent, written)
    }

    constructor (policy: Policy)
      ensures View() == START && this.policy == policy
    {
      this.policy := policy;
      skipExtended, txStatus, closed, sent := false, 'I', false, [];
      written := [Written(ReadyForQuery('I'), false)];
    }

    method Send(m: Frontend, flushed: bool)
      modifies this
      ensures View() == Forward(old(View()), m, flushed)
    {
      sent := sent + [m];
      closed := !flushed || m.Terminate?;
    }

    method WriteReject(reason: RejectReason, withReadyForQuery: bool)
      modifies this
      ensures View() == RejectTo(old(View()), reason, withReadyForQuery)
    {
      written := written + [Written(ErrorResponse(reason), true)];
      if withReadyForQuery {
        written := written + [Written(ReadyForQuery(txStatus), true)];
      }
    }

    method WriteReadyForQuery()
      modifies this
      ensures View() == old(View()).(written := old(written) + [Written(ReadyForQuery(old(txStatus)), true)])
    {
      written := written + [Written(ReadyForQuery(txStatus), true)];
    }

    method ClientMessage(m: Frontend, flushed: bool)
      requires !closed
      modifies this
      ensures View() == ClientStep(policy, old(View()), m, flushed)
    {
      match m
      case Terminate => Send(m, flushed);
      case Query(sql) =>
        if skipExtended {
          skipExtended := false;
        }
        var v := policy(sql);
        if v.Reject? {
          WriteReject(v.reason, true);
        } else {
          Send(m, flushed);
        }
      case Parse(sql) =>
        var v := policy(sql);
        if v.Reject? {
          WriteReject(v.reason, false);
          skipExtended := true;
        } else {
          Send(m, flushed);
        }
      case FunctionCall =>
        if !skipExtended {
          WriteReject(RejectFunctionCall, true);
        }
      case Sync =>
        if skipExtended {
          skipExtended := false;
          WriteReadyForQuery();
        } else {
          Send(m, flushed);
        }
      case OtherFrontend(_) =>
        if !skipExtended {
          Send(m, flushed);
        }
    }

    /** writeClient. */
    method WriteClient(msgs: seq<Backend>)
      modifies this
      ensures View() == ServerSteps(old(View()), msgs)
    {
      for k := 0 to |msgs|
        invariant View() == ServerSteps(old(View()), msgs[..k])
      {
        assert msgs[..k + 1][..k] == msgs[..k];
        if msgs[k].ReadyForQuery? {
          txStatus := msgs[k].status;
        }
        written := written + [Written(msgs[k], false)];
      }
      assert msgs[..|msgs|] == msgs;
    }
  }

  function ServerSteps(s: State, msgs: seq<Backend>): State {
    if msgs == [] then s else ServerStep(ServerSteps(s, msgs[..|msgs| - 1]), msgs[|msgs| - 1])
  }

  // ---- transaction status

  /** The last status the client was told. */
  function LastStatus(written: seq<Written>): char {
    if written == [] then 'I'
    else
      var k := |written| - 1;
      if written[k].msg.ReadyForQuery? then written[k].msg.status else LastStatus(written[..k])
  }

  /** Every made-up ReadyForQuery repeats the status the client was last told. */
  predicate Repeats(written: seq<Written>) {
    forall k :: 0 <= k < |written| && written[k].synthetic && written[k].msg.ReadyForQuery? ==>
      written[k].msg.status == LastStatus(written[..k])
  }

  lemma WriteKeeps(written: seq<Written>, w: Written)
    requires Repeats(written) && (w.synthetic && w.msg.ReadyForQuery? ==> w.msg.status == LastStatus(written))
    ensures Repeats(written + [w])
    ensures LastStatus(written + [w]) == if w.msg.ReadyForQuery? then w.msg.status else LastStatus(written)
  {
    var all := written + [w];
    assert all[..|written|] == written;
    forall k | 0 <= k < |all| && all[k].synthetic && all[k].msg.ReadyForQuery?
      ensures all[k].msg.status == LastStatus(all[..k])
    {
      assert k < |written| ==> all[..k] == written[..k];
    }
  }

  lemma RejectKeeps(s: State, reason: RejectReason, withReady: bool)
    requires Repeats(s.written) && s.txStatus == LastStatus(s.written)
    ensures Repeats(RejectTo(s, reason, withReady).written) &&
              s.txStatus == LastStatus(RejectTo(s, reason, withReady).written)
  {
    hide Repeats, LastStatus;
    var error, ready := Written(ErrorResponse(reason), true), Written(ReadyForQuery(s.txStatus), true);
    WriteKeeps(s.written, error);
    if withReady {
      WriteKeeps(s.written + [error], ready);
    } else {
      assert RejectTo(s, reason, withReady).written == s.written + [error];
    }
  }

  /** In every interleaving the client is never told a transaction status the upstream did not report last. */
  lemma {:induction false} StatusIsRepeated(policy: Policy, events: seq<Event>)
    ensures var s := Run(policy, events); Repeats(s.written) && s.txStatus == LastStatus(s.written)
  {
    hide Repeats, LastStatus;
    if events == [] {
      StartRepeats();
    } else {
      var s, e := Run(policy, events[..|events| - 1]), events[|events| - 1];
      StatusIsRepeated(policy, events[..|events| - 1]);
      match e
      case FromServer(m) => WriteKeeps(s.written, Written(m, false));
      case FromClient(m, _) =>
        WriteKeeps(s.written, Written(ReadyForQuery(s.txStatus), true));
        match m
        case Query(sql) => if policy(sql).Reject? { RejectKeeps(s.(skip := false), policy(sql).reason, true); }
        case Parse(sql) => if policy(sql).Reject? { RejectKeeps(s, policy(sql).reason, false); }
        case FunctionCall => RejectKeeps(s, RejectFunctionCall, true);
        case _ =>
    }
  }

  lemma StartRepeats()
    ensures Repeats(START.written) && LastStatus(START.written) == 'I'
  {
    assert START.written[..0] == [];
  }

  // ---- synchronisation points

  /** Forwarded messages that the server answers with a ReadyForQuery. */
  function SentPoints(sent: seq<Frontend>): nat {
    if sent == [] then 0
    else
      var m := sent[|sent| - 1];
      SentPoints(sent[..|sent| - 1]) + if m.Query? || m.Sync? then 1 else 0
  }

  /** ReadyForQuery messages on the client's side, made up by the proxy or passed on. */
  function ReadyCount(written: seq<Written>, synthetic: bool): nat {
    if written == [] then 0
    else
      var w := written[|written| - 1];
      ReadyCount(written[..|written| - 1], synthetic) +
      if w.synthetic == synthetic && w.msg.ReadyForQuery? then 1 else 0
  }

  predicate IsAwaited(m: Frontend, skip: bool) {
    m.Query? || m.Sync? || (m.FunctionCall? && !skip)
  }

  /**
    * Messages for which the client waits for a ReadyForQuery: every Query and Sync, and each FunctionCall not skipped.
    */
  function Awaited(policy: Policy, events: seq<Event>): nat {
    if events == [] then 0
    else
      var e, s := events[|events| - 1], Run(policy, events[..|events| - 1]);
      Awaited(policy, events[..|events| - 1]) +
      if e.FromClient? && !s.closed && IsAwaited(e.received, s.skip) then 1 else 0
  }

  lemma SentPointsSnoc(sent: seq<Frontend>, m: Frontend)
    ensures SentPoints(sent + [m]) == SentPoints(sent) + if m.Query? || m.Sync? then 1 else 0
  {
    assert (sent + [m])[..|sent|] == sent;
  }

  lemma ReadyCountSnoc(written: seq<Written>, w: Written, synthetic: bool)
    ensures ReadyCount(written + [w], synthetic)
         == ReadyCount(written, synthetic) + if w.synthetic == synthetic && w.msg.ReadyForQuery? then 1 else 0
  {
    assert (written + [w])[..|written|] == written;
  }

  lemma RejectCounts(s: State, reason: RejectReason, withReady: bool)
    ensures ReadyCount(RejectTo(s, reason, withReady).written, true)
              == ReadyCount(s.written, true) + if withReady then 1 else 0
  {
    var error, ready := Written(ErrorResponse(reason), true), Written(ReadyForQuery(s.txStatus), true);
    ReadyCountSnoc(s.written, error, true);
    if withReady {
      ReadyCountSnoc(s.written + [error], ready, true);
    } else {
      assert RejectTo(s, reason, withReady).written == s.written + [error];
    }
  }

  /**
    * Conservation: each point the client waits at is either forwarded or answered by the proxy, never both, never
    * neither.
    */
  lemma {:induction false} PointsAreConserved(policy: Policy, events: seq<Event>)
    ensures var s := Run(policy, events);
            SentPoints(s.sent) + ReadyCount(s.written, true) == Awaited(policy, events)
  {
    hide SentPoints, ReadyCount;
    if events == [] {
      StartCounts();
    } else {
      var s, e := Run(policy, events[..|events| - 1]), events[|events| - 1];
      PointsAreConserved(policy, events[..|events| - 1]);
      match e
      case FromServer(m) => ReadyCountSnoc(s.written, Written(m, false), true);
      case FromClient(m, _) =>
        SentPointsSnoc(s.sent, m);
        ReadyCountSnoc(s.written, Written(ReadyForQuery(s.txStatus), true), true);
        match m
        case Query(sql) => if policy(sql).Reject? { RejectCounts(s.(skip := false), policy(sql).reason, true); }
        case Parse(sql) => if policy(sql).Reject? { RejectCounts(s, policy(sql).reason, false); }
        case FunctionCall => RejectCounts(s, RejectFunctionCall, true);
        case _ =>
    }
  }

  lemma StartCounts()
    ensures SentPoints(START.sent) == 0 && ReadyCount(START.written, true) == 0
  {
    assert START.written[..0] == [];
  }

  // ---- what reaches the upstream

  /** Only text that passed the policy goes up, and no FunctionCall ever does. */
  predicate Screened(policy: Policy, sent: seq<Frontend>) {
    forall k :: 0 <= k < |sent| ==>
      && !sent[k].FunctionCall?
      && (sent[k].Query? || sent[k].Parse? ==> policy(sent[k].sql).Allow?)
  }

  lemma {:induction false} SentIsScreened(policy: Policy, events: seq<Event>)
    ensures Screened(policy, Run(policy, events).sent)
  {
    if events != [] {
      SentIsScreened(policy, events[..|events| - 1]);
    }
  }

  /** Whether a Parse was rejected since the last Query or Sync that was read. */
  ghost predicate AwaitsSync(policy: Policy, events: seq<Event>) {
    exists k ::
      && 0 <= k < |events| && RejectedParse(policy, events, k)
      && forall j :: k < j < |events| ==> !EndsSkip(policy, events, j)
  }

  predicate ReadAt(policy: Policy, events: seq<Event>, k: nat)
    requires k < |events|
  {
    events[k].FromClient? && !Run(policy, events[..k]).closed
  }

  predicate RejectedParse(policy: Policy, events: seq<Event>, k: nat)
    requires k < |events|
  {
    ReadAt(policy, events, k) && events[k].received.Parse? && policy(events[k].received.sql).Reject?
  }

  predicate EndsSkip(policy: Policy, events: seq<Event>, k: nat)
    requires k < |events|
  {
    ReadAt(policy, events, k) && (events[k].received.Query? || events[k].received.Sync?)
  }

  /** The skip mode is on exactly between a rejected Parse and the next Query or Sync. */
  lemma {:induction false} SkipMeans(policy: Policy, events: seq<Event>)
    ensures Run(policy, events).skip <==> AwaitsSync(policy, events)
  {
    hide Run;
    if events == [] {
      StartSkips(policy);
    } else {
      var n, init := |events| - 1, events[..|events| - 1];
      SkipMeans(policy, init);
      StepSkips(policy, events);
      forall k: nat | k < n
        ensures RejectedParse(policy, events, k) == RejectedParse(policy, init, k)
        ensures EndsSkip(policy, events, k) == EndsSkip(policy, init, k)
      {
        assert events[..k] == init[..k];
      }
      if AwaitsSync(policy, init) && !EndsSkip(policy, events, n) {
        var k :|
          && 0 <= k < |init| && RejectedParse(policy, init, k)
          && forall j :: k < j < |init| ==> !EndsSkip(policy, init, j);
        assert RejectedParse(policy, events, k);
      }
      if AwaitsSync(policy, events) && !RejectedParse(policy, events, n) {
        var k :|
          && 0 <= k < |events| && RejectedParse(policy, events, k)
          && forall j :: k < j < |events| ==> !EndsSkip(policy, events, j);
        assert RejectedParse(policy, init, k);
      }
    }
  }

  lemma StartSkips(policy: Policy)
    ensures !Run(policy, []).skip
  {
  }

  lemma StepSkips(policy: Policy, events: seq<Event>)
    requires events != []
    ensures var n := |events| - 1;
            Run(policy, events).skip <==>
              RejectedParse(policy, events, n) || (Run(policy, events[..n]).skip && !EndsSkip(policy, events, n))
  {
    var n := |events| - 1;
    OneStepSkips(policy, Run(policy, events[..n]), events[n]);
  }

  lemma OneStepSkips(policy: Policy, s: State, e: Event)
    ensures var read := e.FromClient? && !s.closed;
            Step(policy, s, e).skip <==>
              || (read && e.received.Parse? && policy(e.received.sql).Reject?)
              || (s.skip && !(read && (e.received.Query? || e.received.Sync?)))
  {
  }

  /**
    * What goes up: a Terminate, text that passes the policy, and anything else but a FunctionCall unless a Sync is
    * awaited.
    */
  predicate Passes(policy: Policy, m: Frontend, awaiting: bool) {
    match m
    case Terminate => true
    case Query(sql) => policy(sql).Allow?
    case Parse(sql) => policy(sql).Allow?
    case FunctionCall => false
    case _ => !awaiting
  }

  /**
    * What the proxy itself answers: a rejection, with a ReadyForQuery outside extended queries, and one for the awaited
    * Sync.
    */
  function Answer(policy: Policy, m: Frontend, awaiting: bool, status: char): seq<Backend> {
    match m
    case Query(sql) => if policy(sql).Reject? then [ErrorResponse(policy(sql).reason), ReadyForQuery(status)] else []
    case Parse(sql) => if policy(sql).Reject? then [ErrorResponse(policy(sql).reason)] else []
    case FunctionCall => if awaiting then [] else [ErrorResponse(RejectFunctionCall), ReadyForQuery(status)]
    case Sync => if awaiting then [ReadyForQuery(status)] else []
    case _ => []
  }

  function Synthetic(msgs: seq<Backend>): seq<Written> {
    seq(|msgs|, k requires 0 <= k < |msgs| => Written(msgs[k], true))
  }

  /**
    * Every client message that is read goes up or is answered as the history of the session calls for: whether a
    * rejected Parse still awaits its Sync, and what status the client was last told. While a Sync is awaited a Parse
    * that passes the policy is not dropped.
    */
  lemma Exchange(policy: Policy, events: seq<Event>)
    requires events != [] && ReadAt(policy, events, |events| - 1)
    ensures var m, prior := events[|events| - 1].received, events[..|events| - 1];
            var awaiting, before, after := AwaitsSync(policy, prior), Run(policy, prior), Run(policy, events);
            && after.sent == before.sent + (if Passes(policy, m, awaiting) then [m] else [])
            && after.written == before.written + Synthetic(Answer(policy, m, awaiting, LastStatus(before.written)))
  {
    hide AwaitsSync, LastStatus, Repeats;
    var s, e := Run(policy, events[..|events| - 1]), events[|events| - 1];
    SkipMeans(policy, events[..|events| - 1]);
    StatusIsRepeated(policy, events[..|events| - 1]);
    StepExchanges(policy, s, e.received, e.flushed);
  }

  lemma StepExchanges(policy: Policy, s: State, m: Frontend, flushed: bool)
    ensures var t := ClientStep(policy, s, m, flushed);
            && t.sent == s.sent + (if Passes(policy, m, s.skip) then [m] else [])
            && t.written == s.written + Synthetic(Answer(policy, m, s.skip, s.txStatus))
  {
  }

  // ---- the end of the client's side

  /** The client event k ends the relay's reading: a Terminate, or a message that goes up and cannot be flushed. */
  ghost predicate Ends(policy: Policy, events: seq<Event>, k: nat)
    requires k < |events|
  {
    && events[k].FromClient?
    && (events[k].received.Terminate? ||
        (!events[k].flushed && Passes(policy, events[k].received, AwaitsSync(policy, events[..k]))))
  }

  ghost predicate Ended(policy: Policy, events: seq<Event>) {
    exists k :: 0 <= k < |events| && Ends(policy, events, k)
  }

  lemma StepCloses(policy: Policy, s: State, e: Event)
    ensures Step(policy, s, e).closed <==>
              || s.closed
              || (e.FromClient? && (e.received.Terminate? || (!e.flushed && Passes(policy, e.received, s.skip))))
  {
  }

  lemma EndedSnoc(policy: Policy, events: seq<Event>)
    requires events != []
    ensures var n := |events| - 1; Ended(policy, events) <==> Ended(policy, events[..n]) || Ends(policy, events, n)
  {
    hide AwaitsSync, Passes;
    var n, init := |events| - 1, events[..|events| - 1];
    forall k | 0 <= k < n
      ensures Ends(policy, events, k) == Ends(policy, init, k)
    {
      assert events[..k] == init[..k];
    }
    if Ended(policy, init) {
      var k :| 0 <= k < |init| && Ends(policy, init, k);
      assert Ends(policy, events, k);
    }
  }

  /** In every run the relay reads on exactly until a Terminate, or until something that goes up cannot be flushed. */
  lemma {:induction false} ClosedMeans(policy: Policy, events: seq<Event>)
    ensures Run(policy, events).closed <==> Ended(policy, events)
  {
    hide AwaitsSync, Passes, Step, Ended;
    if events == [] {
      NothingEnds(policy);
    } else {
      var n := |events| - 1;
      ClosedMeans(policy, events[..n]);
      SkipMeans(policy, events[..n]);
      StepCloses(policy, Run(policy, events[..n]), events[n]);
      EndedSnoc(policy, events);
    }
  }

  lemma NothingEnds(policy: Policy)
    ensures !Ended(policy, []) && !Run(policy, []).closed
  {
  }

  /** So as long as the client does not terminate and writing upstream succeeds, every client message is read. */
  lemma EveryMessageIsRead(policy: Policy, events: seq<Event>, k: nat)
    requires k < |events| && events[k].FromClient?
    requires forall j :: 0 <= j < k && events[j].FromClient? ==> events[j].flushed && !events[j].received.Terminate?
    ensures ReadAt(policy, events, k)
  {
    hide AwaitsSync, Passes, Run;
    ClosedMeans(policy, events[..k]);
    assert forall j :: 0 <= j < k ==> events[..k][j] == events[j];
  }

  // ---- what the server says

  /** What was passed on, without what the proxy made up. */
  function PassedOn(written: seq<Written>): seq<Backend> {
    if written == [] then []
    else
      var w := written[|written| - 1];
      PassedOn(written[..|written| - 1]) + if w.synthetic then [] else [w.msg]
  }

  /** The replies among events. */
  function Replies(events: seq<Event>): seq<Backend> {
    if events == [] then []
    else
      var e := events[|events| - 1];
      Replies(events[..|events| - 1]) + if e.FromServer? then [e.reply] else []
  }

  lemma PassedOnSnoc(written: seq<Written>, w: Written)
    ensures PassedOn(written + [w]) == PassedOn(written) + if w.synthetic then [] else [w.msg]
  {
    assert (written + [w])[..|written|] == written;
  }

  lemma {:induction false} PassedOnSynthetic(written: seq<Written>, msgs: seq<Backend>)
    ensures PassedOn(written + Synthetic(msgs)) == PassedOn(written)
  {
    hide PassedOn;
    if msgs == [] {
      assert written + Synthetic(msgs) == written;
    } else {
      var k := |msgs| - 1;
      PassedOnSynthetic(written, msgs[..k]);
      assert written + Synthetic(msgs) == written + Synthetic(msgs[..k]) + [Written(msgs[k], true)];
      PassedOnSnoc(written + Synthetic(msgs[..k]), Written(msgs[k], true));
    }
  }

  /** Every reply of the server reaches the client, in order and unchanged, between what the proxy makes up. */
  lemma {:induction false} RepliesArrive(policy: Policy, events: seq<Event>)
    ensures PassedOn(Run(policy, events).written) == [ReadyForQuery('I')] + Replies(events)
  {
    hide PassedOn, ClientStep;
    if events == [] {
      FirstReply();
    } else {
      var n := |events| - 1;
      var s, e := Run(policy, events[..n]), events[n];
      RepliesArrive(policy, events[..n]);
      if e.FromServer? {
        PassedOnSnoc(s.written, Written(e.reply, false));
      } else if !s.closed {
        StepExchanges(policy, s, e.received, e.flushed);
        PassedOnSynthetic(s.written, Answer(policy, e.received, s.skip, s.txStatus));
      }
    }
  }

  lemma FirstReply()
    ensures PassedOn(START.written) == [ReadyForQuery('I')]
  {
    assert START.written[..0] == [];
  }
}
