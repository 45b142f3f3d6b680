/**
 The table of captured exchanges in the web page: each message is put on top, the table
 keeps at most 50 rows, and the user may clear it.
 */
module UiTable {
  import opened Prelude
  import opened EventFeed

  const MAX_ROW := 50

  /** What the page has lived through, oldest first. */
  datatype UiEvent = Message(row: Sent) | Cleared

  /** The rows that arrived after the last clear, oldest first. */
  function SinceClear(history: seq<UiEvent>): seq<Sent> {
    if history == [] then []
    else
      match history[|history| - 1]
      case Cleared => []
      case Message(row) => SinceClear(history[..|history| - 1]) + [row]
  }

  /** Every row that ever arrived, oldest first. */
  function AllRows(history: seq<UiEvent>): seq<Sent> {
    if history == [] then []
    else
      AllRows(history[..|history| - 1]) +
      match history[|history| - 1]
      case Cleared => []
      case Message(row) => [row]
  }

  /** The newest 50 of the given rows, newest first. */
  ghost predicate IsWindow(rows: seq<Sent>, arrivals: seq<Sent>) {
    && |rows| == (if |arrivals| <= MAX_ROW then |arrivals| else MAX_ROW)
    && forall i | 0 <= i < |rows| :: rows[i] == arrivals[|arrivals| - 1 - i]
  }

  lemma NextWindow(rows: seq<Sent>, arrivals: seq<Sent>, row: Sent)
    requires IsWindow(rows, arrivals)
    ensures var more := [row] + rows;
            IsWindow(if |more| > MAX_ROW then more[..MAX_ROW] else more, arrivals + [row])
  {
    var all, more := arrivals + [row], [row] + rows;
    forall i | 0 <= i < |more| ensures more[i] == all[|all| - 1 - i] { NextRow(rows, arrivals, row, i); }
  }

  lemma NextRow(rows: seq<Sent>, arrivals: seq<Sent>, row: Sent, i: nat)
    requires IsWindow(rows, arrivals) && i <= |rows|
    ensures ([row] + rows)[i] == (arrivals + [row])[|arrivals| - i]
  {
    if i > 0 { assert rows[i - 1] == arrivals[|arrivals| - 1 - (i - 1)]; }
  }

  class Table {
    var rows: seq<Sent>
    ghost var history: seq<UiEvent>

    ghost predicate Valid()
      reads this
    {
      IsWindow(rows, SinceClear(history))
    }

    constructor ()
      ensures Valid() && history == []
    {
      rows := [];
      history := [];
    }

    method OnMessage(row: Sent)
      requires Valid()
      modifies this
      ensures Valid() && history == old(history) + [Message(row)]
      ensures rows == [row] + if |old(rows)| < 50 then old(rows) else old(rows)[..49]
    {
      rows := [row] + rows;
      if |rows| > MAX_ROW {
        rows := rows[..MAX_ROW];
      }
      NextWindow(old(rows), SinceClear(history), row);
      history := history + [Message(row)];
      assert history[..|history| - 1] == old(history);
    }

    method Clear()
      modifies this
      ensures Valid() && rows == [] && history == old(history) + [Cleared]
    {
      rows := [];
      history := history + [Cleared];
    }

    /** Plays any sequence of arrivals and clears. */
    method Play(events: seq<UiEvent>)
      requires Valid()
      modifies this
      ensures Valid() && history == old(history) + events
    {
      for i := 0 to |events|
        invariant Valid() && history == old(history) + events[..i]
      {
        match events[i] {
          case Message(row) => OnMessage(row);
          case Cleared => Clear();
        }
        assert events[..i + 1] == events[..i] + [events[i]];
      }
      assert events[..|events|] == events;
    }
  }

  /** The rows since the last clear are the tail end of all rows that arrived. */
  lemma {:induction false} SinceClearIsTail(history: seq<UiEvent>)
    ensures |SinceClear(history)| <= |AllRows(history)|
    ensures SinceClear(history) == AllRows(history)[|AllRows(history)| - |SinceClear(history)|..]
  {
    if history != [] {
      SinceClearIsTail(history[..|history| - 1]);
    }
  }

  /**
   Composed with one event loop: when the rows came, in order, from the stream of one client,
   the ids strictly decrease down the table, whatever was cleared in between.
   */
  lemma TableIdsDecrease(steps: seq<Step>, c: nat, cap: nat, history: seq<UiEvent>, rows: seq<Sent>, i: nat, j: nat)
    requires After(steps, cap).Some? && After(steps, cap).value.adds < TWO_64
    requires c < |After(steps, cap).value.loops|
    requires AllRows(history) <= After(steps, cap).value.loops[c].sent
    requires IsWindow(rows, SinceClear(history)) && i < j < |rows|
    ensures rows[i].id > rows[j].id
  {
    StreamIdsIncrease(steps, c, cap);
    var sent, all := After(steps, cap).value.loops[c].sent, AllRows(history);
    RowAt(history, rows, i);
    RowAt(history, rows, j);
    assert all[|all| - 1 - i] == sent[|all| - 1 - i] && all[|all| - 1 - j] == sent[|all| - 1 - j];
  }

  lemma RowAt(history: seq<UiEvent>, rows: seq<Sent>, i: nat)
    requires IsWindow(rows, SinceClear(history)) && i < |rows|
    ensures i < |AllRows(history)| && rows[i] == AllRows(history)[|AllRows(history)| - 1 - i]
  {
    SinceClearIsTail(history);
    var all, tail := AllRows(history), SinceClear(history);
    assert rows[i] == tail[|tail| - 1 - i] == all[|all| - 1 - i];
  }
}
