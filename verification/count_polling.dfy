/** `MessageCountPolling`: the strategy state (previous snapshot and stop
    flag), one cycle of `run`, the `run` loop driven by a finite sequence of
    cycles, `stop`, and `send_message`. */
module CountPolling {
  import opened Wrappers
  import opened ChatTypes
  import opened Queries
  import opened OrderedDict
  import opened Sequences
  import opened CountSnapshot
  import opened MessageDispatch

  /** `self.chats_prev` and `self._to_stop`. */
  datatype State = State(chatsPrev: Option<Snapshot>, toStop: bool)

  ghost predicate ValidState(st: State) {
    st.chatsPrev.Some? ==> Valid(st.chatsPrev.value)
  }

  /** The state `__init__` sets up: no baseline yet, no stop requested. */
  function Init(): (st: State)
    ensures ValidState(st) && st.chatsPrev.None? && !st.toStop
  {
    State(None, false)
  }

  /** `stop`: raise the flag and touch nothing else. Applying it twice is
      the same as applying it once, since the result is fully determined. */
  function Stop(st: State): (r: State)
    ensures r.toStop
    ensures r.chatsPrev == st.chatsPrev
  {
    st.(toStop := true)
  }

  /** `send_message`: the single insertion it hands to the executor. */
  function SendMessage(t: ChatTable, msg: ChatMessage): (q: Query)
    ensures q.Insert? && q.table == t.name
    ensures |q.values| == 1
  {
    Insert(t.name, [t.chatIdCol, t.textCol], [[msg.destination, Str(msg.text)]])
  }

  /** The outgoing table receives exactly one record: the destination under
      the chat id column and the text under the text column. */
  lemma SendMessageInsertsOneRow(t: ChatTable, msg: ChatMessage)
    ensures InsertedRows(SendMessage(t, msg)) == [map[t.chatIdCol := msg.destination, t.textCol := Str(msg.text)]]
  {
    var q := SendMessage(t, msg);
    var cols, vals := [t.chatIdCol, t.textCol], [msg.destination, Str(msg.text)];
    assert cols[1..][1..] == [];
    assert RowOf(cols[1..], vals[1..]) == map[t.textCol := Str(msg.text)];
    assert RowOf(cols, vals) == map[t.chatIdCol := msg.destination, t.textCol := Str(msg.text)];
  }

  /** What one pass of the `while True` body does before the stop check. */
  datatype CycleOutcome = CycleOutcome(state: State, dispatched: seq<Dispatch>, error: Option<Error>)

  /** One cycle: the `try` around `check_message_count` and the dispatch
      loop. An exception is caught and ends the cycle; by then a successful
      count check has already replaced the snapshot. */
  function Cycle(p: Params, st: State, resp: Option<seq<Row>>, env: Env): (out: CycleOutcome)
    requires ValidState(st)
    ensures ValidState(out.state)
    ensures out.state.toStop == st.toStop
    ensures !(resp.Some? && WellFormed(resp.value, p.polling)) ==>
      out.state == st && out.dispatched == [] && out.error.Some?
    ensures resp.Some? && WellFormed(resp.value, p.polling) ==>
      out.state.chatsPrev == Some(ChatsOf(resp.value, p.polling))
  {
    var check := CheckMessageCount(p.polling, st.chatsPrev, resp);
    var next := State(check.chatsPrev, st.toStop);
    match check.changed
    case Failure(e) => CycleOutcome(next, [], Some(e))
    case Success(ids) =>
      var done := ProcessChats(ids, env, p.botUsername);
      CycleOutcome(next, done.dispatched, done.failure)
  }

  /** Echo suppression over a whole cycle: every message handed to
      `on_message` is the newest entry of its conversation's history and was
      not written by the bot. */
  lemma CycleSuppressesEcho(p: Params, st: State, resp: Option<seq<Row>>, env: Env)
    requires ValidState(st)
    ensures forall d :: d in Cycle(p, st, resp, env).dispatched ==> NewestNonBot(d, env, p.botUsername)
  {
    var check := CheckMessageCount(p.polling, st.chatsPrev, resp);
    if check.changed.Success? {
      DispatchedAreNewestNonBot(check.changed.value, env, p.botUsername);
    }
  }

  /** Cold start: the first successful cycle adopts the baseline and
      dispatches nothing. */
  lemma ColdStart(p: Params, st: State, rows: seq<Row>, env: Env)
    requires st.chatsPrev.None? && WellFormed(rows, p.polling)
    ensures var out := Cycle(p, st, Some(rows), env);
      && out.dispatched == [] && out.error.None?
      && out.state.chatsPrev == Some(ChatsOf(rows, p.polling))
  {
  }

  /** A cycle against a baseline runs the dispatch loop over the diff. */
  lemma CycleAgainstBaseline(p: Params, prev: Snapshot, toStop: bool, rows: seq<Row>, env: Env)
    requires Valid(prev) && WellFormed(rows, p.polling)
    ensures var chats := ChatsOf(rows, p.polling);
      var done := ProcessChats(ChangedIds(prev, chats), env, p.botUsername);
      Cycle(p, State(Some(prev), toStop), Some(rows), env) == CycleOutcome(State(Some(chats), toStop), done.dispatched, done.failure)
  {
  }

  /** A cycle against a baseline dispatches only conversations whose count
      changed. */
  lemma CycleDispatchesOnlyChanged(p: Params, prev: Snapshot, toStop: bool, rows: seq<Row>, env: Env)
    requires Valid(prev) && WellFormed(rows, p.polling)
    ensures var out := Cycle(p, State(Some(prev), toStop), Some(rows), env);
      var chats := ChatsOf(rows, p.polling);
      forall d :: d in out.dispatched ==>
        d.chat in chats.entries && Get(prev, d.chat, Null) != chats.entries[d.chat]
  {
    var chats := ChatsOf(rows, p.polling);
    var ids := ChangedIds(prev, chats);
    var done := ProcessChats(ids, env, p.botUsername);
    CycleAgainstBaseline(p, prev, toStop, rows, env);
    ProcessChatsDispatches(ids, env, p.botUsername);
    forall d | d in done.dispatched
      ensures d.chat in chats.entries && Get(prev, d.chat, Null) != chats.entries[d.chat]
    {
      assert d.chat in ids[..done.reached];
    }
  }

  /** When no exception occurs, a cycle against a baseline dispatches every
      conversation whose count changed and whose newest message is not the
      bot's own, with that newest message. */
  lemma CycleDispatchesAllChanged(p: Params, prev: Snapshot, toStop: bool, rows: seq<Row>, env: Env)
    requires Valid(prev) && WellFormed(rows, p.polling)
    ensures var out := Cycle(p, State(Some(prev), toStop), Some(rows), env);
      var chats := ChatsOf(rows, p.polling);
      out.error.None? ==>
        forall x :: (x in chats.entries && Get(prev, x, Null) != chats.entries[x] &&
          x in env.histories && |env.histories[x]| > 0 &&
          env.histories[x][|env.histories[x]| - 1].user != p.botUsername) ==>
          Dispatch(x, env.histories[x][|env.histories[x]| - 1]) in out.dispatched
  {
    var chats := ChatsOf(rows, p.polling);
    var ids := ChangedIds(prev, chats);
    CycleAgainstBaseline(p, prev, toStop, rows, env);
    ProcessChatsCompletes(ids, env, p.botUsername);
  }

  /** Conversations abandoned by an exception are lost: the snapshot was
      already replaced, so a next cycle over the same counts dispatches
      nothing, whatever the first cycle's outcome. */
  lemma AbandonedChatsNotRedetected(p: Params, st: State, rows: seq<Row>, env: Env, env': Env)
    requires ValidState(st) && WellFormed(rows, p.polling)
    ensures var first := Cycle(p, st, Some(rows), env);
      var second := Cycle(p, first.state, Some(rows), env');
      second.dispatched == [] && second.error.None?
  {
    var chats := ChatsOf(rows, p.polling);
    UnchangedReportsNothing(chats);
  }

  /** The inputs of one loop iteration: the count query's answer, the
      collaborators' behaviour, and whether `stop` was called before this
      iteration's flag check. */
  datatype Tick = Tick(resp: Option<seq<Row>>, env: Env, stopCalled: bool)

  /** What `run` did over a finite prefix of its iterations: the final
      state, every dispatch made, the number of cycles run, and whether it
      returned. */
  datatype RunOutcome = RunOutcome(state: State, dispatched: seq<Dispatch>, cycles: nat, returned: bool)

  /** `run`: cycles never propagate an exception; after each cycle the stop
      flag is checked and, when set, `run` returns (otherwise it sleeps and
      goes on). */
  function Run(p: Params, st: State, ticks: seq<Tick>): (out: RunOutcome)
    requires ValidState(st)
    decreases |ticks|
    ensures ValidState(out.state)
    ensures out.cycles <= |ticks|
    ensures !out.returned ==> out.cycles == |ticks|
    ensures out.returned <==> |ticks| > 0 && (st.toStop || exists i :: 0 <= i < |ticks| && ticks[i].stopCalled)
    ensures out.returned ==>
      && out.state.toStop && 0 < out.cycles
      && (st.toStop || ticks[out.cycles - 1].stopCalled)
      && forall i :: 0 <= i < out.cycles - 1 ==> !ticks[i].stopCalled
    ensures st.toStop && |ticks| > 0 ==> out.returned && out.cycles == 1
  {
    if |ticks| == 0 then RunOutcome(st, [], 0, false)
    else
      var c := Cycle(p, st, ticks[0].resp, ticks[0].env);
      var after := if ticks[0].stopCalled then Stop(c.state) else c.state;
      if after.toStop then RunOutcome(after, c.dispatched, 1, true)
      else
        var rest := Run(p, after, ticks[1..]);
        assert forall i :: 0 < i < |ticks| ==> ticks[i] == ticks[1..][i - 1];
        RunOutcome(rest.state, c.dispatched + rest.dispatched, rest.cycles + 1, rest.returned)
  }

  /** Stop latency: once `stop` has been called (before `run` started, or
      during iteration `k`), `run` returns at the end of that same cycle at
      the latest. */
  lemma StopLatency(p: Params, st: State, ticks: seq<Tick>, k: nat)
    requires ValidState(st) && k < |ticks| && (st.toStop || ticks[k].stopCalled)
    ensures Run(p, st, ticks).returned && Run(p, st, ticks).cycles <= k + 1
  {
  }

  /** Errors never end the loop: without a stop request every cycle runs,
      whatever the cycles raised. */
  lemma ErrorsDoNotEndLoop(p: Params, st: State, ticks: seq<Tick>)
    requires ValidState(st) && !st.toStop
    requires forall i :: 0 <= i < |ticks| ==> !ticks[i].stopCalled
    ensures !Run(p, st, ticks).returned && Run(p, st, ticks).cycles == |ticks|
  {
  }

  /** A single iteration of `run` makes exactly the `on_message` calls of
      its cycle and leaves the cycle's snapshot. */
  lemma RunFirstCycle(p: Params, st: State, t: Tick)
    requires ValidState(st)
    ensures var c := Cycle(p, st, t.resp, t.env);
      && Run(p, st, [t]).dispatched == c.dispatched
      && Run(p, st, [t]).state.chatsPrev == c.state.chatsPrev
      && Run(p, st, [t]).cycles == 1
  {
    assert [t][1..] == [];
  }

  /** One unfolding of `run`: its first iteration is a cycle followed by
      the flag check, and the remaining iterations start from the state
      that check left. */
  lemma RunStep(p: Params, st: State, ticks: seq<Tick>)
    requires ValidState(st) && |ticks| > 0
    ensures var c := Cycle(p, st, ticks[0].resp, ticks[0].env);
      var after := if ticks[0].stopCalled then Stop(c.state) else c.state;
      && ValidState(after)
      && Run(p, st, ticks) ==
        if after.toStop then RunOutcome(after, c.dispatched, 1, true)
        else
          var rest := Run(p, after, ticks[1..]);
          RunOutcome(rest.state, c.dispatched + rest.dispatched, rest.cycles + 1, rest.returned)
  {
  }

  /** Iterations compose: when `run` has not returned after the iterations
      `a`, running `a + b` is running `a` and then `b` from the state `a`
      left. */
  lemma {:induction false} RunAppend(p: Params, st: State, a: seq<Tick>, b: seq<Tick>)
    requires ValidState(st) && !Run(p, st, a).returned
    ensures var rb := Run(p, Run(p, st, a).state, b);
      && Run(p, st, a + b).state == rb.state
      && Run(p, st, a + b).cycles == Run(p, st, a).cycles + rb.cycles
      && Run(p, st, a + b).returned == rb.returned
    decreases |a|
  {
    if |a| == 0 {
      assert a + b == b;
    } else {
      var c := Cycle(p, st, a[0].resp, a[0].env);
      var after := if a[0].stopCalled then Stop(c.state) else c.state;
      RunStep(p, st, a);
      assert (a + b)[0] == a[0] && (a + b)[1..] == a[1..] + b;
      RunStep(p, st, a + b);
      RunAppend(p, after, a[1..], b);
    }
  }

  /** The `on_message` calls of `a + b`, when `run` has not returned after
      `a`, are those of `a` followed by those of `b` run from the state `a`
      left. */
  lemma {:induction false} RunAppendDispatches(p: Params, st: State, a: seq<Tick>, b: seq<Tick>)
    requires ValidState(st) && !Run(p, st, a).returned
    ensures Run(p, st, a + b).dispatched == Run(p, st, a).dispatched + Run(p, Run(p, st, a).state, b).dispatched
    decreases |a|
  {
    if |a| == 0 {
      assert a + b == b;
    } else {
      var c := Cycle(p, st, a[0].resp, a[0].env);
      var after := if a[0].stopCalled then Stop(c.state) else c.state;
      RunStep(p, st, a);
      assert (a + b)[0] == a[0] && (a + b)[1..] == a[1..] + b;
      RunStep(p, st, a + b);
      var restA := Run(p, after, a[1..]);
      RunAppendDispatches(p, after, a[1..], b);
      var db := Run(p, restA.state, b).dispatched;
      AppendAssociative(c.dispatched, restA.dispatched, db);
    }
  }

  /** The count check of an iteration succeeds: there is a data frame and
      every row carries both selected columns. */
  ghost predicate Answered(t: Tick, p: Params) {
    t.resp.Some? && WellFormed(t.resp.value, p.polling)
  }

  /** Echo suppression over the whole loop: every `on_message` call `run`
      makes hands over the newest message, not the bot's own, of that
      conversation's history as it stood in one of the iterations run. */
  lemma {:induction false} RunDispatchesNewestNonBot(p: Params, st: State, ticks: seq<Tick>)
    requires ValidState(st)
    ensures forall d :: d in Run(p, st, ticks).dispatched ==>
      exists i :: 0 <= i < Run(p, st, ticks).cycles && NewestNonBot(d, ticks[i].env, p.botUsername)
    decreases |ticks|
  {
    if |ticks| > 0 {
      var out := Run(p, st, ticks);
      var c := Cycle(p, st, ticks[0].resp, ticks[0].env);
      var after := if ticks[0].stopCalled then Stop(c.state) else c.state;
      CycleSuppressesEcho(p, st, ticks[0].resp, ticks[0].env);
      if after.toStop {
        forall d | d in out.dispatched
          ensures exists i :: 0 <= i < out.cycles && NewestNonBot(d, ticks[i].env, p.botUsername)
        {
          assert NewestNonBot(d, ticks[0].env, p.botUsername);
        }
      } else {
        var rest := Run(p, after, ticks[1..]);
        RunDispatchesNewestNonBot(p, after, ticks[1..]);
        assert out.dispatched == c.dispatched + rest.dispatched && out.cycles == rest.cycles + 1;
        forall d | d in out.dispatched
          ensures exists i :: 0 <= i < out.cycles && NewestNonBot(d, ticks[i].env, p.botUsername)
        {
          if d in c.dispatched {
            assert NewestNonBot(d, ticks[0].env, p.botUsername);
          } else {
            assert d in rest.dispatched;
            var j :| 0 <= j < rest.cycles && NewestNonBot(d, ticks[1..][j].env, p.botUsername);
            assert ticks[1..][j] == ticks[j + 1];
          }
        }
      }
    }
  }

  /** The snapshot `run` leaves behind is the one built in the last
      iteration whose count check succeeded. */
  lemma {:induction false} RunKeepsLastSnapshot(p: Params, st: State, ticks: seq<Tick>, i: nat)
    requires ValidState(st)
    requires i < Run(p, st, ticks).cycles && Answered(ticks[i], p)
    requires forall j :: i < j < Run(p, st, ticks).cycles ==> !Answered(ticks[j], p)
    ensures Run(p, st, ticks).state.chatsPrev == Some(ChatsOf(ticks[i].resp.value, p.polling))
    decreases |ticks|
  {
    var c := Cycle(p, st, ticks[0].resp, ticks[0].env);
    var after := if ticks[0].stopCalled then Stop(c.state) else c.state;
    if !after.toStop {
      var rest := Run(p, after, ticks[1..]);
      assert Run(p, st, ticks).state == rest.state && Run(p, st, ticks).cycles == rest.cycles + 1;
      if i == 0 {
        assert forall j :: 0 <= j < rest.cycles ==> ticks[1..][j] == ticks[j + 1];
        RunKeepsSnapshot(p, after, ticks[1..]);
      } else {
        assert forall j :: i - 1 < j < rest.cycles ==> ticks[1..][j] == ticks[j + 1];
        RunKeepsLastSnapshot(p, after, ticks[1..], i - 1);
      }
    }
  }

  /** When no iteration's count check succeeds, `run` leaves the snapshot
      it started with. */
  lemma {:induction false} RunKeepsSnapshot(p: Params, st: State, ticks: seq<Tick>)
    requires ValidState(st)
    requires forall j :: 0 <= j < Run(p, st, ticks).cycles ==> !Answered(ticks[j], p)
    ensures Run(p, st, ticks).state.chatsPrev == st.chatsPrev
    decreases |ticks|
  {
    if |ticks| > 0 {
      var c := Cycle(p, st, ticks[0].resp, ticks[0].env);
      var after := if ticks[0].stopCalled then Stop(c.state) else c.state;
      assert !Answered(ticks[0], p);
      if !after.toStop {
        var rest := Run(p, after, ticks[1..]);
        assert forall j :: 0 <= j < rest.cycles ==> ticks[1..][j] == ticks[j + 1];
        RunKeepsSnapshot(p, after, ticks[1..]);
      }
    }
  }
}
