# Count-based chat polling, modelled in Dafny

This project models `MessageCountPolling`, the chatbot polling strategy in
`mindsdb/interfaces/chatbot/polling.py`. The strategy finds new inbound chat
messages by comparing per-conversation message counts between polls. It
hands the newest message of each changed conversation to the bot's
`on_message` callback. Outgoing bot replies are written back with one
insert into the chat table.

The model is written as pure functions over one explicit state record,
`CountPolling.State(chatsPrev, toStop)`. That record stands for the
instance fields `self.chats_prev` and `self._to_stop`.

- `wrappers.dfy` (`Wrappers`): `Option` stands for Python's value-or-`None`. `Result` stands for value-or-raised-exception.
- `chat_types.dfy` (`ChatTypes`): the data model.
  - Cell values: `Null` for `None`, integers and strings.
  - Result rows: maps from column name to cell.
  - Chat messages.
  - The `polling`, `chat_table` and `bot_username` configuration.
  - The exceptions a cycle can raise.
- `queries.dfy` (`Queries`): the `Select`/`Insert` query shapes, and the records an insert adds to its table.
- `sequences.dfy` (`Sequences`): distinctness, subsequences and first occurrences. These are used to state ordering.
- `ordered_dict.dfy` (`OrderedDict`): Python's `dict`.
  - It keeps its keys in insertion order.
  - Assigning to a key that is already present keeps that key's position.
  - `dict.get` with a default is modelled too.
- `count_snapshot.dfy` (`CountSnapshot`): `check_message_count`. This covers the count selection, the snapshot built from the rows, the diff against the previous snapshot, the cold-start rule and the error paths.
- `message_dispatch.dfy` (`MessageDispatch`): `get_last_message` and the per-conversation dispatch loop of one cycle.
- `count_polling.dfy` (`CountPolling`): the rest of the strategy.
  - The state record, `__init__` and `stop`.
  - `send_message`.
  - One cycle of `run`.
  - The `run` loop over a finite sequence of iterations.

The collaborators are parameters:
- The query executor's answer to the count selection is an `Option<seq<Row>>`. `None` means the response has no data frame.
- Chat memory is an `Env`. It gives each conversation's fresh history. A conversation missing from it makes `get_chat`/`get_history` raise.
- `Env` also gives the set of conversations whose `on_message` raises.
- `on_message` calls are returned as a list of `Dispatch(chat, message)` values.
- A call to `stop` from another thread is an input flag on each loop iteration. It means `stop` was called before that iteration's flag check.

Behaviour of the code that the model makes explicit:
- **The dispatch loop has one `try` for the whole cycle (lines 40-50).** An exception on one conversation therefore abandons the remaining conversations of that cycle. By then the snapshot has already been replaced, so those conversations are not detected again unless their count changes again (`AbandonedChatsNotRedetected`).
- **A conversation missing from the previous snapshot is compared through `chats_prev.get(chat_id)`, which is `None`.** So a new conversation whose count cell is itself `None` is not reported (`NewIdReported`).
- **The changed ids come in the order in which each id first occurs in the result rows.** This is Python's dict insertion order. The order decides which conversations are reached before an exception (`BuildChatsOrder`, `DispatchInOrder`).

## Model

| member | source | states |
|---|---|---|
| CountSnapshot.SnapshotQuery | mindsdb/interfaces/chatbot/polling.py:71-79 | the counts are read by selecting the id column and then the count column from the configured table |
| CountSnapshot.BuildChats | mindsdb/interfaces/chatbot/polling.py:85-90 | building the snapshot either yields a well-formed ordered dict or raises `KeyError` for the id column or the count column |
| CountSnapshot.BuildChatsSucceeds | mindsdb/interfaces/chatbot/polling.py:86-90 | building the snapshot succeeds exactly when every row carries both selected columns |
| CountSnapshot.BuildChatsKeys | mindsdb/interfaces/chatbot/polling.py:85-90 | the snapshot's keys are exactly the ids occurring in the rows |
| CountSnapshot.BuildChatsLastWins | mindsdb/interfaces/chatbot/polling.py:85-90 | with duplicate ids, an id maps to the count of the last row that carries it |
| CountSnapshot.BuildChatsOrder | mindsdb/interfaces/chatbot/polling.py:85-90 | the snapshot's keys are ordered by the first row in which each id occurs |
| CountSnapshot.BuildChatsReadsOnlySelected | mindsdb/interfaces/chatbot/polling.py:74-90 | the snapshot depends only on the two selected columns of each row |
| CountSnapshot.ChangedIds | mindsdb/interfaces/chatbot/polling.py:98-100 | an id is reported iff it is in the new snapshot and the previous `get` gives a different value; reported ids are distinct and in snapshot key order |
| CountSnapshot.VanishedNotReported | mindsdb/interfaces/chatbot/polling.py:98-100 | an id present only in the previous snapshot is never reported |
| CountSnapshot.NewIdReported | mindsdb/interfaces/chatbot/polling.py:98-100 | a newly appearing id is reported iff its count is not `None` |
| CountSnapshot.UnchangedReportsNothing | mindsdb/interfaces/chatbot/polling.py:98-100 | comparing a snapshot with itself reports no id |
| CountSnapshot.CheckMessageCount | mindsdb/interfaces/chatbot/polling.py:66-103 | no data frame raises `BotException` and a missing column raises `KeyError`, both leaving `chats_prev` unchanged; on success `chats_prev` becomes the new snapshot in both branches; with no previous snapshot it reports nothing; with one, it reports exactly the new-snapshot ids whose `get` on the previous snapshot differs, without duplicates and in the snapshot's key order |
| CountSnapshot.ExampleDiff | mindsdb/interfaces/chatbot/polling.py:98-100 | for distinct conversations A, B, C, previous {A: 2, B: 5} and new {A: 2, B: 6, C: 1} report [B, C] |
| MessageDispatch.GetLastMessage | mindsdb/interfaces/chatbot/polling.py:57-64 | it returns `None` iff the newest history entry's user is the bot; otherwise it returns that newest entry; an empty history raises |
| MessageDispatch.HandleChat | mindsdb/interfaces/chatbot/polling.py:42-47 | for one changed conversation, the result depends on its history. If the history cannot be fetched or is empty, it raises without dispatching. If the bot wrote the newest message, it does nothing. Otherwise it dispatches the newest message and raises only if the callback raises |
| MessageDispatch.ProcessChats | mindsdb/interfaces/chatbot/polling.py:40-50 | the loop reaches every changed conversation unless one raises; it makes at most one dispatch per conversation reached |
| MessageDispatch.ProcessChatsStopsAtFirstError | mindsdb/interfaces/chatbot/polling.py:40-50 | the loop fails iff some conversation raises; it fails with the exception of the first such conversation, and every earlier conversation did not raise |
| MessageDispatch.ProcessChatsDispatches | mindsdb/interfaces/chatbot/polling.py:42-50 | only conversations up to the one that raised are dispatched; each of them is dispatched exactly when its handling delivers a message, with that message |
| MessageDispatch.ProcessChatsCompletes | mindsdb/interfaces/chatbot/polling.py:42-47 | when nothing raises, every listed conversation whose newest message is not the bot's has that message dispatched |
| MessageDispatch.DispatchedAreNewestNonBot | mindsdb/interfaces/chatbot/polling.py:43-47 | every dispatched message is the newest entry of its conversation's fresh history and was not written by the bot |
| MessageDispatch.DispatchOncePerChat | mindsdb/interfaces/chatbot/polling.py:42-47 | over distinct changed ids, `on_message` is called at most once per conversation per cycle |
| MessageDispatch.DispatchInOrder | mindsdb/interfaces/chatbot/polling.py:42-47 | `on_message` calls follow the order of the changed ids |
| CountPolling.Init | mindsdb/interfaces/chatbot/polling.py:29-33 | a new strategy has no baseline and no stop request |
| CountPolling.Stop | mindsdb/interfaces/chatbot/polling.py:120-121 | `stop` sets the flag and leaves the snapshot alone, so calling it twice has no further effect |
| CountPolling.SendMessage | mindsdb/interfaces/chatbot/polling.py:105-118 | `send_message` issues one insertion of a single record into the configured chat table |
| CountPolling.SendMessageInsertsOneRow | mindsdb/interfaces/chatbot/polling.py:105-118 | that insertion adds exactly one record, with the destination under `chat_id_col` and the text under `text_col` |
| CountPolling.Cycle | mindsdb/interfaces/chatbot/polling.py:39-50 | if the count check fails, the cycle leaves the state unchanged and dispatches nothing; otherwise the snapshot is replaced even when dispatch later raises; a cycle never changes the stop flag |
| CountPolling.CycleSuppressesEcho | mindsdb/interfaces/chatbot/polling.py:42-47 | a cycle dispatches only the newest message of a conversation's history, and never one written by the bot |
| CountPolling.ColdStart | mindsdb/interfaces/chatbot/polling.py:92-94 | the first successful cycle adopts the snapshot as baseline, dispatches nothing and raises nothing |
| CountPolling.CycleDispatchesOnlyChanged | mindsdb/interfaces/chatbot/polling.py:41-47 | against a baseline, only conversations whose count changed are dispatched |
| CountPolling.CycleDispatchesAllChanged | mindsdb/interfaces/chatbot/polling.py:41-47 | against a baseline and without an exception, every changed conversation whose newest message is not the bot's is dispatched with that message |
| CountPolling.AbandonedChatsNotRedetected | mindsdb/interfaces/chatbot/polling.py:40-50 | after any cycle over given counts, a further cycle over the same counts dispatches nothing, so conversations abandoned by an exception are lost |
| CountPolling.Run | mindsdb/interfaces/chatbot/polling.py:39-55 | `run` returns iff the flag is set at some iteration's check; it returns at the first such check, so after the first cycle when `stop` came before `run`; until then every iteration runs, whatever it raised |
| CountPolling.RunFirstCycle | mindsdb/interfaces/chatbot/polling.py:39-53 | one iteration of `run` makes exactly its cycle's `on_message` calls and keeps that cycle's snapshot |
| CountPolling.RunAppend | mindsdb/interfaces/chatbot/polling.py:39-55 | iterations compose: until `run` returns, running more iterations continues from the state the earlier ones left |
| CountPolling.RunAppendDispatches | mindsdb/interfaces/chatbot/polling.py:39-55 | until `run` returns, its `on_message` calls are those of the earlier iterations followed by those of the later ones |
| CountPolling.RunDispatchesNewestNonBot | mindsdb/interfaces/chatbot/polling.py:39-55 | every `on_message` call made by `run` hands over the newest message, not written by the bot, of that conversation's history in one of the iterations run |
| CountPolling.RunKeepsLastSnapshot | mindsdb/interfaces/chatbot/polling.py:39-53 | after `run`, `chats_prev` is the snapshot of the last iteration whose count check succeeded, whatever later iterations raised |
| CountPolling.RunKeepsSnapshot | mindsdb/interfaces/chatbot/polling.py:39-53 | when no iteration's count check succeeds, `run` leaves `chats_prev` as it found it |
| CountPolling.StopLatency | mindsdb/interfaces/chatbot/polling.py:52-53 | after `stop` is called, before `run` started or during some iteration, `run` returns at the end of that cycle at the latest |
| CountPolling.ErrorsDoNotEndLoop | mindsdb/interfaces/chatbot/polling.py:49-53 | without a stop request the loop runs every iteration; exceptions never end it |

## Left out

- `RealtimePolling` (lines 124-144): its content is a blocking `threading.Event` wait and pass-through calls to the transport's subscribe and send, so there is no sequential logic to model.
- `BasePolling` (lines 13-25): its `NotImplementedError` stubs carry no behaviour.
- `time.sleep(7)` and the unbounded `while True`: the loop is modelled over a finite sequence of iterations. Each iteration is a cycle followed by the stop-flag check.
- `log.logger` calls: logging has no behaviour to verify. This includes line 54, `'running ' + self.chat_task.bot_record.name`, which runs outside the `try`; the model assumes the bot record's name is a string, so that line never raises.
- `self.chat_memory = defaultdict(dict)` (line 37): it is assigned and never read.
- The `mindsdb_sql` AST classes and `chat_handler.query`: queries are a small `Query` datatype. The query result is an input.
- Executing the insert built by `send_message`: a failure there propagates to the caller. The model only builds the query, so that failure is not modelled.
- `chat_task.memory.get_chat`, `get_history` and `on_message`: these are abstracted by `Env`. The model does not say how a history is fetched or what the callback does beyond whether it raises.
- Floating-point and boolean cells: `Value` has no NaN, so Python's `nan != nan` is not modelled. Integer/float cross-type equality is not modelled either.
- `if message:`: the model assumes every chat message object is truthy. The message type is not part of this model.
- `params['polling']`, `params['chat_table']` and `params['bot_username']` (read at line 61): the model assumes these configuration entries are present. A missing entry would raise `KeyError` in the source.
