/**
  The scheduler-message log of the launcher window: the shared `log_dict`
  slot that a message is staged in (run_gui.py:104), the entries of
  `log_data["Message List"]`, the rows the message list widget shows, and
  the signals the poller thread posts to the window.
*/
module ActivityLog {

  /** The global `log_dict`: the message staged for the next `add_log_entry`. */
  datatype LogSlot = LogSlot(pid: string, msg: string, scheduler: bool)

  /** `log_dict` as the program starts. */
  const InitialSlot := LogSlot("0", "None", false)

  /** One `[timestamp, pid, message, scheduler]` entry of `Message List`. */
  datatype LogEntry = LogEntry(timestamp: string, pid: string, msg: string, scheduler: bool)

  /** One row of the message list widget: the first three items of an entry. */
  datatype Row = Row(timestamp: string, pid: string, msg: string)

  /** What the poller thread posts to the window: a new cluster load, a new job list, or the staged message. */
  datatype Signal = ClusterLoadSignal | JobListSignal | LogSignal(slot: LogSlot)

  /** The entry `add_log_entry` stores for the staged message. */
  function EntryOf(timestamp: string, slot: LogSlot): (e: LogEntry)
    ensures e.pid == slot.pid && e.msg == slot.msg && e.scheduler == slot.scheduler
    ensures e.timestamp == timestamp
  {
    LogEntry(timestamp, slot.pid, slot.msg, slot.scheduler)
  }

  function RowOf(e: LogEntry): Row {
    Row(e.timestamp, e.pid, e.msg)
  }

  /** An entry is shown when the scheduler sent it or "show all messages" is ticked. */
  predicate Visible(e: LogEntry, showAll: bool) {
    e.scheduler || showAll
  }

  /**
    The rows the message list shows for `ms`: each visible entry, prepended
    in turn, so the newest entry is on top.
  */
  function Displayed(ms: seq<LogEntry>, showAll: bool): (rows: seq<Row>)
    ensures |rows| <= |ms|
    decreases |ms|
  {
    if ms == [] then []
    else
      var e := ms[|ms| - 1];
      (if Visible(e, showAll) then [RowOf(e)] else []) + Displayed(ms[..|ms| - 1], showAll)
  }

  /** Adding one entry puts its row, if visible, on top of the rows shown before. */
  lemma DisplayedAppend(ms: seq<LogEntry>, e: LogEntry, showAll: bool)
    ensures Displayed(ms + [e], showAll) ==
            (if Visible(e, showAll) then [RowOf(e)] else []) + Displayed(ms, showAll)
  {
    assert (ms + [e])[..|ms|] == ms;
  }

  /** A row is shown exactly when some visible entry has it. */
  lemma {:induction false} DisplayedMembers(ms: seq<LogEntry>, showAll: bool, row: Row)
    ensures row in Displayed(ms, showAll) <==>
            exists i :: 0 <= i < |ms| && Visible(ms[i], showAll) && RowOf(ms[i]) == row
    decreases |ms|
  {
    if ms != [] {
      var init := ms[..|ms| - 1];
      DisplayedMembers(init, showAll, row);
      if exists i :: 0 <= i < |init| && Visible(init[i], showAll) && RowOf(init[i]) == row {
        var i :| 0 <= i < |init| && Visible(init[i], showAll) && RowOf(init[i]) == row;
        assert ms[i] == init[i];
      }
      if exists i :: 0 <= i < |ms| && Visible(ms[i], showAll) && RowOf(ms[i]) == row {
        var i :| 0 <= i < |ms| && Visible(ms[i], showAll) && RowOf(ms[i]) == row;
        if i < |init| {
          assert init[i] == ms[i];
        }
      }
    }
  }

  /** With "show all messages" ticked every entry is shown, newest first. */
  lemma {:induction false} DisplayedAll(ms: seq<LogEntry>, k: nat)
    requires k < |ms|
    ensures |Displayed(ms, true)| == |ms|
    ensures Displayed(ms, true)[k] == RowOf(ms[|ms| - 1 - k])
    decreases |ms|
  {
    var init := ms[..|ms| - 1];
    if k > 0 {
      DisplayedAll(init, k - 1);
    } else if init != [] {
      DisplayedAll(init, 0);
    }
  }

  /** Python's `list.remove(x)` with the `ValueError` swallowed: the first occurrence of `x` goes, if any. */
  function RemoveFirst(s: seq<string>, x: string): (r: seq<string>)
    ensures multiset(r) == multiset(s) - multiset{x}
    ensures x !in s ==> r == s
    decreases |s|
  {
    if s == [] then []
    else
      assert s == [s[0]] + s[1..];
      if s[0] == x then s[1..] else [s[0]] + RemoveFirst(s[1..], x)
  }

  /** Only the first occurrence goes: what precedes it and what follows it stay in order. */
  lemma RemoveFirstAt(s: seq<string>, x: string, i: nat)
    requires i < |s| && s[i] == x && x !in s[..i]
    ensures RemoveFirst(s, x) == s[..i] + s[i + 1..]
  {
    assert s == s[..i] + s[i..];
    RemoveFirstSplit(s[..i], s[i..], x);
    assert s[i..][1..] == s[i + 1..];
  }

  lemma {:induction false} RemoveFirstSplit(a: seq<string>, b: seq<string>, x: string)
    requires x !in a && b != [] && b[0] == x
    ensures RemoveFirst(a + b, x) == a + b[1..]
    decreases |a|
  {
    if a == [] {
      assert a + b == b;
    } else {
      assert (a + b)[1..] == a[1..] + b;
      assert a[0] in a;
      RemoveFirstSplit(a[1..], b, x);
    }
  }
}
