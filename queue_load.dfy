/**
  The per-queue slot counts of `queue_dict` (run_gui.py:94-100) and what one
  OverWatch reply does to them (run_gui.py:251-265). The reply's
  `QueueStatus` entries are applied in order; for an entry naming a known
  queue the five counts are written one after the other, and a key missing
  from the entry raises `KeyError` where it occurs: counts already written
  stay written and the remaining entries are not looked at.
*/
module QueueLoad {
  import opened Wrappers

  /** The five counts kept for one queue. */
  datatype Load = Load(total: int, avail: int, used: int, reserved: int, failed: int)

  /** The counts every queue starts with, before the first reply arrives. */
  const Initial := Load(100, 0, 100, 0, 0)

  /** `queue_dict` at start-up: one entry per configured queue. */
  function InitialQueues(names: set<string>): (q: map<string, Load>)
    ensures q.Keys == names
    ensures forall n :: n in q ==> q[n] == Initial
  {
    map n | n in names :: Initial
  }

  const TotalKey := "totalSlots"
  const UsedKey := "totalUsedSlots"
  const FailedKey := "totalUnavailableSlots"
  const ReservedKey := "totalReservedSlots"
  const AvailKey := "totalAvailableSlots"

  /** One element of the reply's `QueueStatus` list: its `name`, if it has one, and its numeric fields. */
  datatype StatusEntry = StatusEntry(name: Option<string>, slots: map<string, int>)

  /**
    The outcome of `requests.get(...).json()`: the request (or the JSON
    decoding) failed, or a document that has a `QueueStatus` list or lacks one.
  */
  datatype ClusterReply = RequestFailed | Reply(queueStatus: Option<seq<StatusEntry>>)

  /** The counts after applying a prefix of the entries, and whether no `KeyError` was raised. */
  datatype Applied = Applied(queues: map<string, Load>, ok: bool)

  /** An entry that raises no `KeyError`: it has a name and all five counts. */
  predicate Complete(e: StatusEntry) {
    e.name.Some? && TotalKey in e.slots && UsedKey in e.slots && FailedKey in e.slots
    && ReservedKey in e.slots && AvailKey in e.slots
  }

  /** The counts a complete entry carries. */
  function LoadOf(e: StatusEntry): Load
    requires Complete(e)
  {
    Load(total := e.slots[TotalKey], avail := e.slots[AvailKey], used := e.slots[UsedKey],
         reserved := e.slots[ReservedKey], failed := e.slots[FailedKey])
  }

  /**
    The five writes for one known queue, in the source's order total, used,
    failed, reserved, available. A field is overwritten exactly when its key
    and the keys written before it are all present.
  */
  function WriteSlots(l: Load, slots: map<string, int>): (r: (Load, bool))
    ensures r.1 <==> TotalKey in slots && UsedKey in slots && FailedKey in slots
                     && ReservedKey in slots && AvailKey in slots
    ensures r.0.total == if TotalKey in slots then slots[TotalKey] else l.total
    ensures r.0.used == if TotalKey in slots && UsedKey in slots then slots[UsedKey] else l.used
    ensures r.0.failed == if TotalKey in slots && UsedKey in slots && FailedKey in slots
                          then slots[FailedKey] else l.failed
    ensures r.0.reserved == if TotalKey in slots && UsedKey in slots && FailedKey in slots && ReservedKey in slots
                            then slots[ReservedKey] else l.reserved
    ensures r.0.avail == if r.1 then slots[AvailKey] else l.avail
  {
    if TotalKey !in slots then (l, false)
    else
      var l1 := l.(total := slots[TotalKey]);
      if UsedKey !in slots then (l1, false)
      else
        var l2 := l1.(used := slots[UsedKey]);
        if FailedKey !in slots then (l2, false)
        else
          var l3 := l2.(failed := slots[FailedKey]);
          if ReservedKey !in slots then (l3, false)
          else
            var l4 := l3.(reserved := slots[ReservedKey]);
            if AvailKey !in slots then (l4, false)
            else (l4.(avail := slots[AvailKey]), true)
  }

  /** One entry of `QueueStatus` applied to `queue_dict`. */
  function ApplyEntry(q: map<string, Load>, e: StatusEntry): (r: Applied)
    ensures r.queues.Keys == q.Keys
    ensures r.ok <==> e.name.Some? && (e.name.value !in q || Complete(e))
    ensures r.ok && e.name.value in q ==> r.queues == q[e.name.value := LoadOf(e)]
    ensures e.name.Some? && e.name.value !in q ==> r == Applied(q, true)
    ensures e.name.None? ==> r == Applied(q, false)
    ensures e.name.Some? && e.name.value in q ==>
              var w := WriteSlots(q[e.name.value], e.slots);
              r == Applied(q[e.name.value := w.0], w.1)
  {
    match e.name
    case None => Applied(q, false)
    case Some(n) =>
      if n !in q then Applied(q, true)
      else
        var w := WriteSlots(q[n], e.slots);
        Applied(q[n := w.0], w.1)
  }

  /** The entries applied in order, stopping at the first one that raises `KeyError`. */
  function ApplyAll(q: map<string, Load>, es: seq<StatusEntry>): (r: Applied)
    ensures r.queues.Keys == q.Keys
    decreases |es|
  {
    if es == [] then Applied(q, true)
    else
      var r := ApplyAll(q, es[..|es| - 1]);
      if !r.ok then r else ApplyEntry(r.queues, es[|es| - 1])
  }

  /** After a `KeyError` nothing more is written: the entries after it make no difference. */
  lemma {:induction false} AbortSticky(q: map<string, Load>, es: seq<StatusEntry>, k: nat)
    requires k <= |es| && !ApplyAll(q, es[..k]).ok
    ensures ApplyAll(q, es) == ApplyAll(q, es[..k])
    decreases |es|
  {
    if k < |es| {
      var init := es[..|es| - 1];
      assert init[..k] == es[..k];
      AbortSticky(q, init, k);
    } else {
      assert es[..k] == es;
    }
  }

  /** One more entry: what the loop over `QueueStatus` does at each step. */
  lemma ApplyAllStep(q: map<string, Load>, es: seq<StatusEntry>, i: nat)
    requires i < |es|
    ensures ApplyAll(q, es[..i + 1]) ==
            var r := ApplyAll(q, es[..i]); if !r.ok then r else ApplyEntry(r.queues, es[i])
  {
    assert es[..i + 1][..i] == es[..i];
  }

  /** The counts the most recent entry named `n` carries, or `prior` when no entry names `n`. */
  function Latest(es: seq<StatusEntry>, n: string, prior: Load): Load
    requires forall i :: 0 <= i < |es| ==> Complete(es[i])
    decreases |es|
  {
    if es == [] then prior
    else if es[|es| - 1].name == Some(n) then LoadOf(es[|es| - 1])
    else Latest(es[..|es| - 1], n, prior)
  }

  /**
    A reply whose entries are all complete raises nothing, and leaves every
    known queue with the counts of the last entry naming it; a queue no entry
    names keeps its counts, and entries naming unknown queues are ignored.
  */
  lemma {:induction false} ApplyComplete(q: map<string, Load>, es: seq<StatusEntry>, n: string)
    requires forall i :: 0 <= i < |es| ==> Complete(es[i])
    requires n in q
    ensures ApplyAll(q, es).ok
    ensures ApplyAll(q, es).queues[n] == Latest(es, n, q[n])
    decreases |es|
  {
    if es != [] {
      var init := es[..|es| - 1];
      ApplyComplete(q, init, n);
    }
  }

  /** A reply that names no known queue changes nothing and raises nothing, whatever its counts. */
  lemma {:induction false} ApplyUnknown(q: map<string, Load>, es: seq<StatusEntry>)
    requires forall i :: 0 <= i < |es| ==> es[i].name.Some? && es[i].name.value !in q
    ensures ApplyAll(q, es) == Applied(q, true)
    decreases |es|
  {
    if es != [] {
      ApplyUnknown(q, es[..|es| - 1]);
    }
  }

  /**
    The counts are not replaced as one: an entry for a known queue that has
    `totalSlots` but lacks `totalUsedSlots` leaves the new total beside the
    old used, unavailable, reserved and available counts.
  */
  lemma PartialWrite(q: map<string, Load>, es: seq<StatusEntry>, n: string, total: int)
    requires n in q
    ensures var r := ApplyAll(q, es + [StatusEntry(Some(n), map[TotalKey := total])]);
            ApplyAll(q, es).ok ==>
              !r.ok && r.queues == ApplyAll(q, es).queues[n := ApplyAll(q, es).queues[n].(total := total)]
  {
    var e := StatusEntry(Some(n), map[TotalKey := total]);
    assert (es + [e])[..|es|] == es;
    assert UsedKey !in e.slots;
  }
}
