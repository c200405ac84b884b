/** `MessageCountPolling.check_message_count`: select the message count of
    every conversation, build the snapshot `chats` from the result rows, and
    report the conversations whose count differs from the previous snapshot. */
module CountSnapshot {
  import opened Wrappers
  import opened ChatTypes
  import opened Queries
  import opened Sequences
  import opened OrderedDict

  /** Conversation id to message count, in first-seen order. */
  type Snapshot = Dict<Value, Value>

  /** The selection issued for the counts. */
  function SnapshotQuery(p: PollingParams): (q: Query)
    ensures q.Select? && q.fromTable == p.table
    ensures q.targets == [p.chatIdCol, p.countCol]
  {
    Select([p.chatIdCol, p.countCol], p.table)
  }

  predicate HasColumns(row: Row, p: PollingParams) {
    p.chatIdCol in row && p.countCol in row
  }

  /** Every row carries both selected columns, so no lookup raises. */
  ghost predicate WellFormed(rows: seq<Row>, p: PollingParams) {
    forall i :: 0 <= i < |rows| ==> HasColumns(rows[i], p)
  }

  /** The id cell of every row, in row order. */
  function IdColumn(rows: seq<Row>, p: PollingParams): (ids: seq<Value>)
    requires WellFormed(rows, p)
    ensures |ids| == |rows|
    ensures forall i :: 0 <= i < |rows| ==> ids[i] == rows[i][p.chatIdCol]
  {
    if |rows| == 0 then []
    else
      var init := rows[..|rows| - 1];
      assert forall i :: 0 <= i < |init| ==> init[i] == rows[i];
      IdColumn(init, p) + [rows[|rows| - 1][p.chatIdCol]]
  }

  /** The loop `chats[row[id_col]] = row[count_col]` over the rows; a row
      without the id column (looked up first) or the count column raises
      `KeyError`. */
  function BuildChats(rows: seq<Row>, p: PollingParams): (r: Result<Snapshot, Error>)
    decreases |rows|
    ensures r.Success? ==> Valid(r.value)
    ensures r.Failure? ==> r.error == KeyError(p.chatIdCol) || r.error == KeyError(p.countCol)
  {
    if |rows| == 0 then Success(Empty())
    else
      var init := rows[..|rows| - 1];
      var row := rows[|rows| - 1];
      assert forall i :: 0 <= i < |init| ==> init[i] == rows[i];
      match BuildChats(init, p)
      case Failure(e) => Failure(e)
      case Success(d) =>
        if p.chatIdCol !in row then Failure(KeyError(p.chatIdCol))
        else if p.countCol !in row then Failure(KeyError(p.countCol))
        else Success(Set(d, row[p.chatIdCol], row[p.countCol]))
  }

  /** Building the snapshot raises exactly when some row lacks a selected
      column. */
  lemma {:induction false} BuildChatsSucceeds(rows: seq<Row>, p: PollingParams)
    ensures BuildChats(rows, p).Success? <==> WellFormed(rows, p)
  {
    if |rows| > 0 {
      var init := rows[..|rows| - 1];
      BuildChatsSucceeds(init, p);
      assert forall i :: 0 <= i < |init| ==> init[i] == rows[i];
    }
  }

  /** The snapshot built from an answer whose rows all carry both columns. */
  function ChatsOf(rows: seq<Row>, p: PollingParams): (d: Snapshot)
    requires WellFormed(rows, p)
    ensures Valid(d) && BuildChats(rows, p) == Success(d)
  {
    BuildChatsSucceeds(rows, p);
    BuildChats(rows, p).value
  }

  /** The last row is applied, as one assignment, to the snapshot of the
      rows before it. */
  lemma BuildChatsStep(rows: seq<Row>, p: PollingParams)
    requires WellFormed(rows, p) && |rows| > 0
    ensures WellFormed(rows[..|rows| - 1], p)
    ensures BuildChats(rows, p).Success? && BuildChats(rows[..|rows| - 1], p).Success?
    ensures var d, d' := BuildChats(rows, p).value, BuildChats(rows[..|rows| - 1], p).value;
      var k := rows[|rows| - 1][p.chatIdCol];
      && d.entries == d'.entries[k := rows[|rows| - 1][p.countCol]]
      && d.order == if k in d'.entries then d'.order else d'.order + [k]
  {
    assert forall i :: 0 <= i < |rows| - 1 ==> rows[..|rows| - 1][i] == rows[i];
    BuildChatsSucceeds(rows[..|rows| - 1], p);
  }

  /** The snapshot holds exactly the ids that occur in the rows. */
  lemma {:induction false} BuildChatsKeys(rows: seq<Row>, p: PollingParams)
    requires WellFormed(rows, p)
    ensures BuildChats(rows, p).Success?
    ensures forall x :: x in BuildChats(rows, p).value.entries <==> x in IdColumn(rows, p)
  {
    if |rows| > 0 {
      var init := rows[..|rows| - 1];
      BuildChatsStep(rows, p);
      BuildChatsKeys(init, p);
    }
  }

  /** Keys are ordered by the row in which the id first occurs. */
  lemma {:induction false} BuildChatsOrder(rows: seq<Row>, p: PollingParams)
    requires WellFormed(rows, p)
    ensures BuildChats(rows, p).Success?
    ensures BuildChats(rows, p).value.order == FirstOccurrences(IdColumn(rows, p))
  {
    if |rows| > 0 {
      var init := rows[..|rows| - 1];
      BuildChatsStep(rows, p);
      BuildChatsOrder(init, p);
      BuildChatsKeys(init, p);
      var ids := IdColumn(rows, p);
      assert ids[..|ids| - 1] == IdColumn(init, p);
    }
  }

  /** Row `i` is the last row carrying its id. */
  ghost predicate LastOfItsId(rows: seq<Row>, p: PollingParams, i: int)
    requires WellFormed(rows, p) && 0 <= i < |rows|
  {
    forall j :: i < j < |rows| ==> rows[j][p.chatIdCol] != rows[i][p.chatIdCol]
  }

  /** Duplicate ids are resolved last-wins: an id maps to the count of the
      last row that carries it. */
  lemma {:induction false} BuildChatsLastWins(rows: seq<Row>, p: PollingParams, i: int)
    requires WellFormed(rows, p) && 0 <= i < |rows| && LastOfItsId(rows, p, i)
    ensures BuildChats(rows, p).Success?
    ensures rows[i][p.chatIdCol] in BuildChats(rows, p).value.entries
    ensures BuildChats(rows, p).value.entries[rows[i][p.chatIdCol]] == rows[i][p.countCol]
  {
    var n := |rows|;
    BuildChatsStep(rows, p);
    if i < n - 1 {
      var init := rows[..n - 1];
      assert init[i] == rows[i];
      assert LastOfItsId(init, p, i) by {
        forall j | i < j < n - 1 ensures init[j][p.chatIdCol] != init[i][p.chatIdCol] {
          assert init[j] == rows[j];
        }
      }
      BuildChatsLastWins(init, p, i);
      assert rows[n - 1][p.chatIdCol] != rows[i][p.chatIdCol];
    }
  }

  /** `rows` cut down to the given columns. */
  function Project(rows: seq<Row>, columns: seq<string>): (r: seq<Row>)
    ensures |r| == |rows|
  {
    seq(|rows|, i requires 0 <= i < |rows| => map c | c in rows[i] && c in columns :: rows[i][c])
  }

  /** The snapshot depends on the selected columns only, so treating the
      executor's answer as arbitrary rows loses nothing. */
  lemma {:induction false} BuildChatsReadsOnlySelected(rows: seq<Row>, p: PollingParams)
    ensures BuildChats(Project(rows, SnapshotQuery(p).targets), p) == BuildChats(rows, p)
  {
    if |rows| > 0 {
      var cols := SnapshotQuery(p).targets;
      var init := rows[..|rows| - 1];
      BuildChatsReadsOnlySelected(init, p);
      assert Project(rows, cols)[..|rows| - 1] == Project(init, cols);
    }
  }

  /** `chats_prev.get(chat_id) != count_msgs`: an id missing from the
      previous snapshot compares its count against `None`. */
  predicate Differs(prev: Snapshot, chats: Snapshot, x: Value)
    requires x in chats.entries
  {
    Get(prev, x, Null) != chats.entries[x]
  }

  /** The comparison loop over `keys`, in order. */
  function ChangedAmong(keys: seq<Value>, prev: Snapshot, chats: Snapshot): seq<Value>
    requires forall k :: k in keys ==> k in chats.entries
  {
    if |keys| == 0 then []
    else (if Differs(prev, chats, keys[0]) then [keys[0]] else []) + ChangedAmong(keys[1..], prev, chats)
  }

  /** The compare branch: the loop over `chats.items()`. An id is reported
      iff it is in the new snapshot and the previous one lacks it (compares
      as `None`) or holds another count; each id is reported once, in the
      snapshot's key order. */
  function ChangedIds(prev: Snapshot, chats: Snapshot): (r: seq<Value>)
    requires Valid(chats)
    ensures forall x :: x in r <==> x in chats.entries && Get(prev, x, Null) != chats.entries[x]
    ensures Distinct(r)
    ensures IsSubsequence(r, chats.order)
  {
    ChangedAmongMembers(chats.order, prev, chats);
    ChangedAmongDistinct(chats.order, prev, chats);
    ChangedAmongInOrder(chats.order, prev, chats);
    ChangedAmong(chats.order, prev, chats)
  }

  lemma {:induction false} ChangedAmongMembers(keys: seq<Value>, prev: Snapshot, chats: Snapshot)
    requires forall k :: k in keys ==> k in chats.entries
    ensures forall x :: x in ChangedAmong(keys, prev, chats) <==> x in keys && Differs(prev, chats, x)
  {
    if |keys| > 0 {
      ChangedAmongMembers(keys[1..], prev, chats);
      assert keys == [keys[0]] + keys[1..];
    }
  }

  lemma {:induction false} ChangedAmongDistinct(keys: seq<Value>, prev: Snapshot, chats: Snapshot)
    requires forall k :: k in keys ==> k in chats.entries
    requires Distinct(keys)
    ensures Distinct(ChangedAmong(keys, prev, chats))
  {
    if |keys| > 0 {
      ChangedAmongDistinct(keys[1..], prev, chats);
      ChangedAmongMembers(keys[1..], prev, chats);
      assert keys[0] !in keys[1..];
    }
  }

  lemma {:induction false} ChangedAmongInOrder(keys: seq<Value>, prev: Snapshot, chats: Snapshot)
    requires forall k :: k in keys ==> k in chats.entries
    requires Distinct(keys)
    ensures IsSubsequence(ChangedAmong(keys, prev, chats), keys)
  {
    if |keys| > 0 {
      ChangedAmongInOrder(keys[1..], prev, chats);
      var rest := ChangedAmong(keys[1..], prev, chats);
      if Differs(prev, chats, keys[0]) {
        var r := [keys[0]] + rest;
        assert r[0] == keys[0] && r[1..] == rest;
      } else if |rest| > 0 {
        ChangedAmongMembers(keys[1..], prev, chats);
        assert rest[0] in keys[1..];
        assert rest[0] != keys[0];
        assert ChangedAmong(keys, prev, chats) == rest;
      }
    }
  }

  /** Ids that disappeared since the previous snapshot are never reported. */
  lemma VanishedNotReported(prev: Snapshot, chats: Snapshot, x: Value)
    requires Valid(chats)
    requires x in prev.entries && x !in chats.entries
    ensures x !in ChangedIds(prev, chats)
  {
  }

  /** A newly appearing id is reported, unless its count cell is `None`,
      which equals the `None` that `get` returns for it. */
  lemma NewIdReported(prev: Snapshot, chats: Snapshot, x: Value)
    requires Valid(chats)
    requires x !in prev.entries && x in chats.entries
    ensures x in ChangedIds(prev, chats) <==> chats.entries[x] != Null
  {
  }

  lemma {:induction false} ChangedAmongSelf(keys: seq<Value>, d: Snapshot)
    requires forall k :: k in keys ==> k in d.entries
    ensures ChangedAmong(keys, d, d) == []
  {
    if |keys| > 0 {
      ChangedAmongSelf(keys[1..], d);
    }
  }

  /** Comparing a snapshot with itself reports nothing. */
  lemma UnchangedReportsNothing(d: Snapshot)
    requires Valid(d)
    ensures ChangedIds(d, d) == []
  {
    ChangedAmongSelf(d.order, d);
  }

  /** The state `check_message_count` reads and writes, and what it returns. */
  datatype CountCheck = CountCheck(changed: Result<seq<Value>, Error>, chatsPrev: Option<Snapshot>)

  /** One call of `check_message_count`, given the previous snapshot and the
      executor's answer (`None` when the response has no data frame). Once a
      baseline exists, the returned list is exactly the diff of the new
      snapshot against it, without duplicates. */
  function CheckMessageCount(p: PollingParams, prev: Option<Snapshot>, resp: Option<seq<Row>>): (out: CountCheck)
    requires prev.Some? ==> Valid(prev.value)
    ensures resp.None? ==> out == CountCheck(Failure(NoDataFrame), prev)
    ensures out.changed.Failure? ==> out.chatsPrev == prev
    ensures resp.Some? && !WellFormed(resp.value, p) ==>
      out.changed.Failure? && out.changed.error.KeyError?
    ensures out.changed.Success? <==> resp.Some? && WellFormed(resp.value, p)
    ensures out.changed.Success? ==> out.chatsPrev == Some(ChatsOf(resp.value, p))
    ensures out.changed.Success? && prev.None? ==> out.changed.value == []
    ensures out.changed.Success? && prev.Some? ==>
      && Distinct(out.changed.value)
      && IsSubsequence(out.changed.value, out.chatsPrev.value.order)
      && forall x :: x in out.changed.value <==>
           x in out.chatsPrev.value.entries && Get(prev.value, x, Null) != out.chatsPrev.value.entries[x]
    ensures out.chatsPrev.Some? ==> Valid(out.chatsPrev.value)
  {
    match resp
    case None => CountCheck(Failure(NoDataFrame), prev)
    case Some(rows) =>
      BuildChatsSucceeds(rows, p);
      match BuildChats(rows, p)
      case Failure(e) => CountCheck(Failure(e), prev)
      case Success(chats) =>
        if prev.None? then CountCheck(Success([]), Some(chats))
        else
          CountCheck(Success(ChangedIds(prev.value, chats)), Some(chats))
  }

  /** For any three distinct conversations A, B and C: previous
      {A: 2, B: 5} and new {A: 2, B: 6, C: 1} report B then C. */
  lemma ExampleDiff(a: Value, b: Value, c: Value)
    requires a != b && b != c && a != c
    ensures ChangedIds(Dict([a, b], map[a := Int(2), b := Int(5)]),
                       Dict([a, b, c], map[a := Int(2), b := Int(6), c := Int(1)])) == [b, c]
  {
    var prev := Dict([a, b], map[a := Int(2), b := Int(5)]);
    var chats := Dict([a, b, c], map[a := Int(2), b := Int(6), c := Int(1)]);
    assert [a, b, c][1..] == [b, c] && [b, c][1..] == [c] && [c][1..] == [];
    assert ChangedAmong([c], prev, chats) == [c];
    assert ChangedAmong([b, c], prev, chats) == [b, c];
  }
}
