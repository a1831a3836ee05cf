/**
  The drain of job artifacts that follows every job-list poll
  (run_gui.py:221-249). For each tracked job id the scheduler's output file
  `ansysedt.o<pid>` and error file `ansysedt.e<pid>` in the user's home
  directory are read if they exist; a non-empty one is staged in the log
  slot as "Submit Message: ..." or "Submit Error: ..." and signalled to the
  window; the file is deleted either way. The job id stays tracked.

  The directory is a map from path to file content.
*/
module Artifacts {
  import opened Text
  import opened ActivityLog

  function OutputFile(dir: string, pid: string): string {
    PathJoin(dir, "ansysedt.o" + pid)
  }

  function ErrorFile(dir: string, pid: string): string {
    PathJoin(dir, "ansysedt.e" + pid)
  }

  /** Different job ids have different artifact paths, and no output file is an error file. */
  lemma ArtifactPathsDistinct(dir: string, p: string, q: string)
    ensures OutputFile(dir, p) == OutputFile(dir, q) ==> p == q
    ensures ErrorFile(dir, p) == ErrorFile(dir, q) ==> p == q
    ensures OutputFile(dir, p) != ErrorFile(dir, q)
  {
    var base := DirPrefix(dir);
    assert OutputFile(dir, p) == base + "ansysedt.o" + p;
    assert OutputFile(dir, q) == base + "ansysedt.o" + q;
    assert ErrorFile(dir, p) == base + "ansysedt.e" + p;
    assert ErrorFile(dir, q) == base + "ansysedt.e" + q;
    if OutputFile(dir, p) == OutputFile(dir, q) {
      assert p == OutputFile(dir, p)[|base| + 10..];
    }
    if ErrorFile(dir, p) == ErrorFile(dir, q) {
      assert p == ErrorFile(dir, p)[|base| + 10..];
    }
    assert OutputFile(dir, p)[|base| + 9] == 'o';
    assert ErrorFile(dir, q)[|base| + 9] == 'e';
  }

  /** The directory, the log slot and the signals posted so far, as the drain goes. */
  datatype Drained = Drained(files: map<string, string>, slot: LogSlot, signals: seq<Signal>)

  /** One artifact: read if present, staged and signalled when non-empty, deleted. */
  function DrainFile(d: Drained, path: string, pid: string, prefix: string): Drained {
    if path !in d.files then d
    else
      var text := d.files[path];
      var files := d.files - {path};
      if text == "" then Drained(files, d.slot, d.signals)
      else
        var slot := LogSlot(pid, prefix + text, true);
        Drained(files, slot, d.signals + [LogSignal(slot)])
  }

  /** Both artifacts of one job id, output file first. */
  function DrainPid(d: Drained, dir: string, pid: string): Drained {
    DrainFile(DrainFile(d, OutputFile(dir, pid), pid, "Submit Message: "), ErrorFile(dir, pid), pid, "Submit Error: ")
  }

  /** The drain over the tracked job ids, in order. */
  function Drain(d: Drained, dir: string, pids: seq<string>): (r: Drained)
    ensures d.signals <= r.signals
    ensures |r.signals| <= |d.signals| + 2 * |pids|
    decreases |pids|
  {
    if pids == [] then d else DrainPid(Drain(d, dir, pids[..|pids| - 1]), dir, pids[|pids| - 1])
  }

  /** Every artifact path of the tracked job ids. */
  function ArtifactsOf(dir: string, pids: seq<string>): set<string> {
    (set p | p in pids :: OutputFile(dir, p)) + (set p | p in pids :: ErrorFile(dir, p))
  }

  /** The drain deletes exactly the artifacts of the tracked job ids and leaves every other file as it was. */
  lemma {:induction false} DrainFiles(d: Drained, dir: string, pids: seq<string>)
    ensures Drain(d, dir, pids).files == d.files - ArtifactsOf(dir, pids)
    decreases |pids|
  {
    if pids == [] {
      assert ArtifactsOf(dir, pids) == {};
      assert d.files - {} == d.files;
    } else {
      var init := pids[..|pids| - 1];
      var pid := pids[|pids| - 1];
      DrainFiles(d, dir, init);
      var both := {OutputFile(dir, pid), ErrorFile(dir, pid)};
      var mid := Drain(d, dir, init);
      calc {
        Drain(d, dir, pids).files;
        DrainPid(mid, dir, pid).files;
        { DrainPidFiles(mid, dir, pid); }
        mid.files - both;
        (d.files - ArtifactsOf(dir, init)) - both;
        { MinusMinus(d.files, ArtifactsOf(dir, init), both); }
        d.files - (ArtifactsOf(dir, init) + both);
        { ArtifactsOfLast(dir, pids); }
        d.files - ArtifactsOf(dir, pids);
      }
    }
  }

  lemma ArtifactsOfLast(dir: string, pids: seq<string>)
    requires pids != []
    ensures ArtifactsOf(dir, pids) ==
            ArtifactsOf(dir, pids[..|pids| - 1]) + {OutputFile(dir, pids[|pids| - 1]), ErrorFile(dir, pids[|pids| - 1])}
  {
    var init := pids[..|pids| - 1];
    assert forall p :: p in pids <==> p in init || p == pids[|pids| - 1] by {
      assert pids == init + [pids[|pids| - 1]];
    }
  }

  lemma DrainPidFiles(d: Drained, dir: string, pid: string)
    ensures DrainPid(d, dir, pid).files == d.files - {OutputFile(dir, pid), ErrorFile(dir, pid)}
  {
    var o, e := OutputFile(dir, pid), ErrorFile(dir, pid);
    var afterO := DrainFile(d, o, pid, "Submit Message: ");
    assert afterO.files == d.files - {o};
    MinusMinus(d.files, {o}, {e});
    assert {o} + {e} == {o, e};
  }

  lemma MinusMinus(m: map<string, string>, a: set<string>, b: set<string>)
    ensures (m - a) - b == m - (a + b)
  {
  }

  /** A signal the drain may post: a scheduler message for a tracked job with the content of one of its artifacts. */
  predicate Posted(files: map<string, string>, dir: string, pids: seq<string>, s: Signal) {
    && s.LogSignal? && s.slot.scheduler && s.slot.pid in pids
    && var o, e := OutputFile(dir, s.slot.pid), ErrorFile(dir, s.slot.pid);
       || (o in files && files[o] != "" && s.slot.msg == "Submit Message: " + files[o])
       || (e in files && files[e] != "" && s.slot.msg == "Submit Error: " + files[e])
  }

  /** The drain only adds signals, and each one carries the non-empty content of an artifact of a tracked job. */
  lemma {:induction false} DrainSound(d: Drained, dir: string, pids: seq<string>)
    ensures d.signals <= Drain(d, dir, pids).signals
    ensures forall s :: s in Drain(d, dir, pids).signals[|d.signals|..] ==> Posted(d.files, dir, pids, s)
    decreases |pids|
  {
    if pids != [] {
      var init := pids[..|pids| - 1];
      var pid := pids[|pids| - 1];
      DrainSound(d, dir, init);
      DrainFiles(d, dir, init);
      var mid := Drain(d, dir, init);
      var r := Drain(d, dir, pids);
      forall s | s in r.signals[|d.signals|..] ensures Posted(d.files, dir, pids, s) {
        if s in mid.signals[|d.signals|..] {
          assert Posted(d.files, dir, init, s);
        } else {
          DrainPidNew(mid, dir, pid, d.signals, s);
        }
      }
    }
  }

  /** What one job id's drain adds comes from its own artifacts, read from the files it starts from. */
  lemma DrainPidNew(mid: Drained, dir: string, pid: string, before: seq<Signal>, s: Signal)
    requires before <= mid.signals
    requires s in DrainPid(mid, dir, pid).signals[|before|..] && s !in mid.signals[|before|..]
    ensures mid.signals <= DrainPid(mid, dir, pid).signals
    ensures s.LogSignal? && s.slot.scheduler && s.slot.pid == pid
    ensures var o, e := OutputFile(dir, pid), ErrorFile(dir, pid);
            || (o in mid.files && mid.files[o] != "" && s.slot.msg == "Submit Message: " + mid.files[o])
            || (e in mid.files && mid.files[e] != "" && s.slot.msg == "Submit Error: " + mid.files[e])
  {
    ArtifactPathsDistinct(dir, pid, pid);
  }

  /** A tracked job whose output file holds text gets that text posted as a submit message. */
  lemma {:induction false} DrainPostsOutput(d: Drained, dir: string, pids: seq<string>, pid: string)
    requires pid in pids
    requires OutputFile(dir, pid) in d.files && d.files[OutputFile(dir, pid)] != ""
    ensures LogSignal(LogSlot(pid, "Submit Message: " + d.files[OutputFile(dir, pid)], true))
              in Drain(d, dir, pids).signals
    decreases |pids|
  {
    var init := pids[..|pids| - 1];
    var last := pids[|pids| - 1];
    var mid := Drain(d, dir, init);
    var s := LogSignal(LogSlot(pid, "Submit Message: " + d.files[OutputFile(dir, pid)], true));
    if pid in init {
      DrainPostsOutput(d, dir, init, pid);
      KeepsSignals(mid, dir, last);
    } else {
      assert pid == last;
      DrainFiles(d, dir, init);
      forall p | p in init ensures OutputFile(dir, pid) != OutputFile(dir, p) && OutputFile(dir, pid) != ErrorFile(dir, p) {
        ArtifactPathsDistinct(dir, pid, p);
      }
      assert OutputFile(dir, pid) !in ArtifactsOf(dir, init);
      var afterO := DrainFile(mid, OutputFile(dir, pid), pid, "Submit Message: ");
      assert s in afterO.signals;
      KeepsSignalsFile(afterO, ErrorFile(dir, pid), pid, "Submit Error: ");
    }
  }

  /** A tracked job whose error file holds text gets that text posted as a submit error. */
  lemma {:induction false} DrainPostsError(d: Drained, dir: string, pids: seq<string>, pid: string)
    requires pid in pids
    requires ErrorFile(dir, pid) in d.files && d.files[ErrorFile(dir, pid)] != ""
    ensures LogSignal(LogSlot(pid, "Submit Error: " + d.files[ErrorFile(dir, pid)], true))
              in Drain(d, dir, pids).signals
    decreases |pids|
  {
    var init := pids[..|pids| - 1];
    var last := pids[|pids| - 1];
    var mid := Drain(d, dir, init);
    if pid in init {
      DrainPostsError(d, dir, init, pid);
      KeepsSignals(mid, dir, last);
    } else {
      assert pid == last;
      DrainFiles(d, dir, init);
      forall p | p in init ensures ErrorFile(dir, pid) != OutputFile(dir, p) && ErrorFile(dir, pid) != ErrorFile(dir, p) {
        ArtifactPathsDistinct(dir, p, pid);
      }
      assert ErrorFile(dir, pid) !in ArtifactsOf(dir, init);
      ArtifactPathsDistinct(dir, pid, pid);
      var afterO := DrainFile(mid, OutputFile(dir, pid), pid, "Submit Message: ");
      assert ErrorFile(dir, pid) in afterO.files && afterO.files[ErrorFile(dir, pid)] == d.files[ErrorFile(dir, pid)];
    }
  }

  /** The signal one artifact gives when it holds text, read from `files`. */
  function FileSignal(files: map<string, string>, path: string, pid: string, prefix: string): seq<Signal> {
    if path in files && files[path] != "" then [LogSignal(LogSlot(pid, prefix + files[path], true))] else []
  }

  /** The signals of one job id: its output file's, then its error file's. */
  function PidSignals(files: map<string, string>, dir: string, pid: string): seq<Signal> {
    FileSignal(files, OutputFile(dir, pid), pid, "Submit Message: ")
      + FileSignal(files, ErrorFile(dir, pid), pid, "Submit Error: ")
  }

  /**
    The signals the drain is meant to post, in order: job id by job id as
    the list goes, each job's artifacts read at most once (a job id listed
    twice finds its files gone the second time).
  */
  function Posts(files: map<string, string>, dir: string, pids: seq<string>): seq<Signal>
    decreases |pids|
  {
    if pids == [] then []
    else PidSignals(files, dir, pids[0])
           + Posts(files - {OutputFile(dir, pids[0]), ErrorFile(dir, pids[0])}, dir, pids[1..])
  }

  /**
    The drain posts exactly `Posts` after the signals already there: in the
    order of the PID list, and for each job id the output file before the
    error file.
  */
  lemma {:induction false} DrainOrder(d: Drained, dir: string, pids: seq<string>)
    ensures Drain(d, dir, pids).signals == d.signals + Posts(d.files, dir, pids)
    decreases |pids|
  {
    if pids == [] {
      assert d.signals + [] == d.signals;
    } else {
      var init := pids[..|pids| - 1];
      var pid := pids[|pids| - 1];
      var mid := Drain(d, dir, init);
      var before, extra := Posts(d.files, dir, init), PidSignals(d.files - ArtifactsOf(dir, init), dir, pid);
      calc {
        Drain(d, dir, pids).signals;
        DrainPid(mid, dir, pid).signals;
        { DrainPidSignals(mid, dir, pid); }
        mid.signals + PidSignals(mid.files, dir, pid);
        { DrainOrder(d, dir, init); DrainFiles(d, dir, init); }
        (d.signals + before) + extra;
        d.signals + (before + extra);
        { PostsSnoc(d.files, dir, init, pid); assert init + [pid] == pids; }
        d.signals + Posts(d.files, dir, pids);
      }
    }
  }

  /** One job id's drain appends its `PidSignals`. */
  lemma DrainPidSignals(d: Drained, dir: string, pid: string)
    ensures DrainPid(d, dir, pid).signals == d.signals + PidSignals(d.files, dir, pid)
  {
    ArtifactPathsDistinct(dir, pid, pid);
    var afterO := DrainFile(d, OutputFile(dir, pid), pid, "Submit Message: ");
    assert afterO.signals == d.signals + FileSignal(d.files, OutputFile(dir, pid), pid, "Submit Message: ");
    assert afterO.files == d.files - {OutputFile(dir, pid)};
  }

  /** `Posts` over one more job id: that job's signals, read from the files the earlier ones left. */
  lemma {:induction false} PostsSnoc(files: map<string, string>, dir: string, pids: seq<string>, pid: string)
    ensures Posts(files, dir, pids + [pid]) == Posts(files, dir, pids) + PidSignals(files - ArtifactsOf(dir, pids), dir, pid)
    decreases |pids|
  {
    if pids == [] {
      assert ArtifactsOf(dir, pids) == {};
      assert files - {} == files;
      assert [pid][1..] == [];
    } else {
      var q := pids[0];
      var both := {OutputFile(dir, q), ErrorFile(dir, q)};
      assert (pids + [pid])[1..] == pids[1..] + [pid];
      PostsSnoc(files - both, dir, pids[1..], pid);
      ArtifactsOfFirst(dir, pids);
      MinusMinus(files, both, ArtifactsOf(dir, pids[1..]));
    }
  }

  lemma ArtifactsOfFirst(dir: string, pids: seq<string>)
    requires pids != []
    ensures ArtifactsOf(dir, pids) == {OutputFile(dir, pids[0]), ErrorFile(dir, pids[0])} + ArtifactsOf(dir, pids[1..])
  {
    assert forall p :: p in pids <==> p == pids[0] || p in pids[1..] by {
      assert pids == [pids[0]] + pids[1..];
    }
  }

  lemma KeepsSignalsFile(d: Drained, path: string, pid: string, prefix: string)
    ensures d.signals <= DrainFile(d, path, pid, prefix).signals
  {
  }

  lemma KeepsSignals(d: Drained, dir: string, pid: string)
    ensures d.signals <= DrainPid(d, dir, pid).signals
  {
  }
}
