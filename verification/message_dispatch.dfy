/** The inner loop of one `MessageCountPolling.run` cycle: for every changed
    conversation fetch its fresh history, drop the bot's own echo, and hand
    the newest message to `on_message`. */
module MessageDispatch {
  import opened Wrappers
  import opened ChatTypes
  import opened Sequences

  /** `get_last_message`: the newest history entry, or `None` when the bot
      wrote it; `history[-1]` raises on an empty history. */
  function GetLastMessage(chat: Value, history: seq<ChatMessage>, botUsername: string): (r: Result<Option<ChatMessage>, Error>)
    ensures r.Failure? <==> |history| == 0
    ensures r.Failure? ==> r.error == EmptyHistory(chat)
    ensures r == Success(None) <==> |history| > 0 && history[|history| - 1].user == botUsername
    ensures r.Success? && r.value.Some? ==> r.value.value == history[|history| - 1] && r.value.value.user != botUsername
  {
    if |history| == 0 then Failure(EmptyHistory(chat))
    else
      var last := history[|history| - 1];
      if last.user == botUsername then Success(None) else Success(Some(last))
  }

  /** What the cycle's collaborators do: the fresh history of each
      conversation (an id without one makes `get_chat`/`get_history` raise)
      and the conversations whose `on_message` callback raises. */
  datatype Env = Env(histories: map<Value, seq<ChatMessage>>, failingCallbacks: set<Value>)

  /** One `on_message(chat_memory, message)` call. */
  datatype Dispatch = Dispatch(chat: Value, msg: ChatMessage)

  /** Handling one changed conversation: the message passed to `on_message`
      (if any) and the exception raised (if any). */
  datatype ChatStep = ChatStep(delivered: Option<ChatMessage>, raised: Option<Error>)

  /** The body of `for chat_id in chat_ids`, for one id. */
  function HandleChat(chat: Value, env: Env, botUsername: string): (s: ChatStep)
    ensures chat !in env.histories ==> s == ChatStep(None, Some(HistoryUnavailable(chat)))
    ensures chat in env.histories && |env.histories[chat]| == 0 ==> s == ChatStep(None, Some(EmptyHistory(chat)))
    ensures s == ChatStep(None, None) <==>
      chat in env.histories && |env.histories[chat]| > 0 && env.histories[chat][|env.histories[chat]| - 1].user == botUsername
    ensures s.delivered.Some? ==>
      && chat in env.histories && |env.histories[chat]| > 0
      && s.delivered.value == env.histories[chat][|env.histories[chat]| - 1]
      && s.delivered.value.user != botUsername
      && (s.raised.Some? <==> chat in env.failingCallbacks)
    ensures chat in env.histories && |env.histories[chat]| > 0
            && env.histories[chat][|env.histories[chat]| - 1].user != botUsername ==>
      && s.delivered == Some(env.histories[chat][|env.histories[chat]| - 1])
      && (s.raised.Some? <==> chat in env.failingCallbacks)
  {
    if chat !in env.histories then ChatStep(None, Some(HistoryUnavailable(chat)))
    else
      match GetLastMessage(chat, env.histories[chat], botUsername)
      case Failure(e) => ChatStep(None, Some(e))
      case Success(None) => ChatStep(None, None)
      case Success(Some(m)) =>
        if chat in env.failingCallbacks then ChatStep(Some(m), Some(CallbackFailed(chat)))
        else ChatStep(Some(m), None)
  }

  /** The dispatches made, the exception that ended the loop (if any), and
      how many ids were started before the loop ended. */
  datatype Processed = Processed(dispatched: seq<Dispatch>, failure: Option<Error>, reached: nat)

  /** The loop over the changed ids inside the cycle's single `try`: the
      first exception abandons every later id. */
  function ProcessChats(ids: seq<Value>, env: Env, botUsername: string): (out: Processed)
    ensures out.reached <= |ids|
    ensures out.failure.None? ==> out.reached == |ids|
    ensures |out.dispatched| <= out.reached
  {
    if |ids| == 0 then Processed([], None, 0)
    else
      var s := HandleChat(ids[0], env, botUsername);
      var here := if s.delivered.Some? then [Dispatch(ids[0], s.delivered.value)] else [];
      if s.raised.Some? then Processed(here, s.raised, 1)
      else
        var rest := ProcessChats(ids[1..], env, botUsername);
        Processed(here + rest.dispatched, rest.failure, rest.reached + 1)
  }

  /** The loop ends at the first conversation whose handling raises, with
      that exception, and only when some conversation raises. */
  lemma {:induction false} ProcessChatsStopsAtFirstError(ids: seq<Value>, env: Env, botUsername: string)
    ensures var out := ProcessChats(ids, env, botUsername);
      && (out.failure.None? <==> forall i :: 0 <= i < |ids| ==> HandleChat(ids[i], env, botUsername).raised.None?)
      && (out.failure.Some? ==>
            && 0 < out.reached
            && out.failure == HandleChat(ids[out.reached - 1], env, botUsername).raised
            && forall i :: 0 <= i < out.reached - 1 ==> HandleChat(ids[i], env, botUsername).raised.None?)
  {
    if |ids| > 0 && HandleChat(ids[0], env, botUsername).raised.None? {
      ProcessChatsStopsAtFirstError(ids[1..], env, botUsername);
      assert forall i :: 0 < i < |ids| ==> ids[i] == ids[1..][i - 1];
    }
  }

  /** The conversations reached by the loop (all of them when none raises)
      are dispatched exactly when their handling delivers a message, that
      is when their newest message is not the bot's; conversations after
      the one that raised are not dispatched. */
  lemma {:induction false} ProcessChatsDispatches(ids: seq<Value>, env: Env, botUsername: string)
    ensures var out := ProcessChats(ids, env, botUsername);
      && (forall d :: d in out.dispatched ==>
            d.chat in ids[..out.reached] && HandleChat(d.chat, env, botUsername).delivered == Some(d.msg))
      && (forall i :: 0 <= i < out.reached && HandleChat(ids[i], env, botUsername).delivered.Some? ==>
            Dispatch(ids[i], HandleChat(ids[i], env, botUsername).delivered.value) in out.dispatched)
  {
    if |ids| > 0 && HandleChat(ids[0], env, botUsername).raised.None? {
      var rest := ProcessChats(ids[1..], env, botUsername);
      ProcessChatsDispatches(ids[1..], env, botUsername);
      assert forall i :: 0 < i < |ids| ==> ids[i] == ids[1..][i - 1];
      assert forall x :: x in ids[1..][..rest.reached] ==> x in ids[..rest.reached + 1];
    }
  }

  /** A dispatch hands over the newest entry of its conversation's history,
      and that entry was not written by the bot. */
  predicate NewestNonBot(d: Dispatch, env: Env, botUsername: string) {
    && d.chat in env.histories && |env.histories[d.chat]| > 0
    && d.msg == env.histories[d.chat][|env.histories[d.chat]| - 1]
    && d.msg.user != botUsername
  }

  /** Echo suppression: every message handed to `on_message` is the newest
      entry of its conversation's fresh history and was not written by the
      bot. */
  lemma DispatchedAreNewestNonBot(ids: seq<Value>, env: Env, botUsername: string)
    ensures forall d :: d in ProcessChats(ids, env, botUsername).dispatched ==> NewestNonBot(d, env, botUsername)
  {
    var out := ProcessChats(ids, env, botUsername);
    ProcessChatsDispatches(ids, env, botUsername);
    forall d | d in out.dispatched
      ensures NewestNonBot(d, env, botUsername)
    {
      assert HandleChat(d.chat, env, botUsername).delivered == Some(d.msg);
    }
  }

  /** When no conversation raises, every listed conversation whose newest
      message is not the bot's has that message dispatched. */
  lemma ProcessChatsCompletes(ids: seq<Value>, env: Env, botUsername: string)
    ensures var out := ProcessChats(ids, env, botUsername);
      out.failure.None? ==>
        forall x :: (x in ids && x in env.histories && |env.histories[x]| > 0 &&
          env.histories[x][|env.histories[x]| - 1].user != botUsername) ==>
          Dispatch(x, env.histories[x][|env.histories[x]| - 1]) in out.dispatched
  {
    var out := ProcessChats(ids, env, botUsername);
    if out.failure.None? {
      ProcessChatsDispatches(ids, env, botUsername);
      forall x | x in ids && x in env.histories && |env.histories[x]| > 0 &&
          env.histories[x][|env.histories[x]| - 1].user != botUsername
        ensures Dispatch(x, env.histories[x][|env.histories[x]| - 1]) in out.dispatched
      {
        var i :| 0 <= i < |ids| && ids[i] == x;
        assert HandleChat(ids[i], env, botUsername).delivered.Some?;
      }
    }
  }

  /** The conversations of a dispatch sequence, in order. */
  function Chats(ds: seq<Dispatch>): (cs: seq<Value>)
    ensures |cs| == |ds|
    ensures forall i :: 0 <= i < |ds| ==> cs[i] == ds[i].chat
  {
    seq(|ds|, i requires 0 <= i < |ds| => ds[i].chat)
  }

  /** One unfolding of `ProcessChats`, stated over dispatched conversations. */
  lemma ProcessChatsUnfold(ids: seq<Value>, env: Env, botUsername: string)
    requires |ids| > 0
    ensures var s := HandleChat(ids[0], env, botUsername);
      Chats(ProcessChats(ids, env, botUsername).dispatched) ==
        (if s.delivered.Some? then [ids[0]] else []) +
        (if s.raised.None? then Chats(ProcessChats(ids[1..], env, botUsername).dispatched) else [])
  {
    var s := HandleChat(ids[0], env, botUsername);
    var here := if s.delivered.Some? then [Dispatch(ids[0], s.delivered.value)] else [];
    var rest := if s.raised.None? then ProcessChats(ids[1..], env, botUsername).dispatched else [];
    assert ProcessChats(ids, env, botUsername).dispatched == here + rest;
    ChatsAppend(here, rest);
    assert Chats(here) == if s.delivered.Some? then [ids[0]] else [];
  }

  lemma ChatsAppend(a: seq<Dispatch>, b: seq<Dispatch>)
    ensures Chats(a + b) == Chats(a) + Chats(b)
  {
    assert forall i :: 0 <= i < |a| + |b| ==> Chats(a + b)[i] == (Chats(a) + Chats(b))[i];
  }

  lemma DispatchedChatsAmongIds(ids: seq<Value>, env: Env, botUsername: string)
    ensures forall k :: k in Chats(ProcessChats(ids, env, botUsername).dispatched) ==> k in ids
  {
    var out := ProcessChats(ids, env, botUsername);
    var cs := Chats(out.dispatched);
    ProcessChatsDispatches(ids, env, botUsername);
    forall k | k in cs ensures k in ids {
      var i :| 0 <= i < |cs| && cs[i] == k;
      assert out.dispatched[i] in out.dispatched;
    }
  }

  /** Over distinct ids, `on_message` is called at most once per
      conversation in a cycle. */
  lemma {:induction false} DispatchOncePerChat(ids: seq<Value>, env: Env, botUsername: string)
    requires Distinct(ids)
    ensures Distinct(Chats(ProcessChats(ids, env, botUsername).dispatched))
  {
    if |ids| > 0 {
      ProcessChatsUnfold(ids, env, botUsername);
      DispatchOncePerChat(ids[1..], env, botUsername);
      DispatchedChatsAmongIds(ids[1..], env, botUsername);
      assert ids[0] !in ids[1..];
    }
  }

  /** `on_message` is called in the order of the changed ids. */
  lemma {:induction false} DispatchInOrder(ids: seq<Value>, env: Env, botUsername: string)
    requires Distinct(ids)
    ensures IsSubsequence(Chats(ProcessChats(ids, env, botUsername).dispatched), ids)
  {
    if |ids| > 0 {
      ProcessChatsUnfold(ids, env, botUsername);
      DispatchInOrder(ids[1..], env, botUsername);
      DispatchedChatsAmongIds(ids[1..], env, botUsername);
      var cs := Chats(ProcessChats(ids, env, botUsername).dispatched);
      var rcs := Chats(ProcessChats(ids[1..], env, botUsername).dispatched);
      var s := HandleChat(ids[0], env, botUsername);
      if s.delivered.Some? {
        assert cs[0] == ids[0];
        assert cs[1..] == (if s.raised.None? then rcs else []);
      } else if |cs| > 0 {
        assert cs == rcs;
        assert cs[0] in ids[1..];
        assert ids[0] !in ids[1..];
      }
    }
  }
}
