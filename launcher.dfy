/**
  The state the launcher window and its poller thread share, and the
  operations that change it. The module-level globals `queue_dict`,
  `qstat_list` and `log_dict` (run_gui.py:94-104), the window's
  `log_data` message list and PID list, the message list widget and its
  "show all messages" box, the files in the user's home directory and the
  events posted to the window are fields of one `Session` object.
*/
module Launcher {
  import opened Wrappers
  import opened Text
  import opened Numeric
  import opened JobList
  import opened ActivityLog
  import opened QueueLoad
  import opened Artifacts
  import opened Submission

  class Session {
    /** `queue_dict`: the slot counts of each configured queue. */
    var queues: map<string, Load>
    /** `qstat_list`: the user's jobs from the last `squeue` poll. */
    var jobs: seq<JobRecord>
    /** `log_dict`: the message staged for the next `add_log_entry`. */
    var slot: LogSlot
    /** `log_data["Message List"]`. */
    var messages: seq<LogEntry>
    /** `log_data["PID List"]`: the job ids whose artifacts are drained. */
    var pids: seq<string>
    /** The rows of the message list widget, top row first. */
    var view: seq<Row>
    /** The "show all messages" check box. */
    var showAll: bool
    /** The user's home directory: file path to content. */
    var files: map<string, string>
    /** The events posted to the window, oldest first. */
    var signals: seq<Signal>

    const userDir: string
    const vncNodes: seq<string>
    const dcvNodes: seq<string>

    /** The widget shows exactly the visible entries of the message list, newest on top. */
    predicate Valid()
      reads this
    {
      view == Displayed(messages, showAll)
    }

    /**
      Start-up: every queue with its initial counts, no jobs, the initial
      `log_dict`, and the message list and PID list read back from the
      saved log (empty when there is none), shown under the given state of
      the "show all" box.
    */
    constructor(names: set<string>, userDir: string, vncNodes: seq<string>, dcvNodes: seq<string>,
                files: map<string, string>, savedMessages: seq<LogEntry>, savedPids: seq<string>, showAll: bool)
      ensures Valid()
      ensures queues == InitialQueues(names) && jobs == [] && slot == InitialSlot
      ensures messages == savedMessages && pids == savedPids && this.showAll == showAll
      ensures this.files == files && signals == []
      ensures this.userDir == userDir && this.vncNodes == vncNodes && this.dcvNodes == dcvNodes
    {
      this.userDir := userDir;
      this.vncNodes := vncNodes;
      this.dcvNodes := dcvNodes;
      queues := InitialQueues(names);
      jobs := [];
      slot := InitialSlot;
      messages := savedMessages;
      pids := savedPids;
      view := [];
      this.showAll := showAll;
      this.files := files;
      signals := [];
      new;
      UpdateMsgList();
    }

    /**
      `update_msg_list`: the widget is emptied and every entry of the message
      list that is visible is prepended in turn.
    */
    method UpdateMsgList()
      modifies this`view
      ensures Valid()
    {
      view := [];
      var i := 0;
      while i < |messages|
        invariant 0 <= i <= |messages|
        invariant view == Displayed(messages[..i], showAll)
      {
        var e := messages[i];
        DisplayedAppend(messages[..i], e, showAll);
        TakeOneMore(messages, i);
        if e.scheduler || showAll {
          view := [RowOf(e)] + view;
        }
        i := i + 1;
      }
      assert messages[..i] == messages;
    }

    /** `m_update_msg_list`: the box is ticked or unticked and the widget rebuilt. */
    method SetShowAll(value: bool)
      modifies this`showAll, this`view
      ensures Valid() && showAll == value
    {
      showAll := value;
      UpdateMsgList();
    }

    /**
      `add_log_entry`: the staged message becomes a new entry at the end of
      the message list, and its row goes on top of the widget when the
      scheduler sent it or "show all" is ticked.
    */
    method AddLogEntry(timestamp: string)
      requires Valid()
      modifies this`messages, this`view
      ensures Valid()
      ensures messages == old(messages) + [EntryOf(timestamp, slot)]
      ensures view == (if slot.scheduler || showAll then [Row(timestamp, slot.pid, slot.msg)] else []) + old(view)
    {
      var e := EntryOf(timestamp, slot);
      DisplayedAppend(messages, e, showAll);
      if slot.scheduler || showAll {
        view := [RowOf(e)] + view;
      }
      messages := messages + [e];
    }

    /** `on_clear`: the widget, the message list and the PID list are emptied. */
    method OnClear()
      modifies this`view, this`messages, this`pids
      ensures Valid()
      ensures view == [] && messages == [] && pids == []
    {
      view := [];
      messages := [];
      pids := [];
    }

    /**
      `cancel_job` for the selected job id: nothing happens unless the user
      confirms; then the first occurrence of the id leaves the PID list, if
      it is there, and a GUI message saying the job was cancelled is logged.
    */
    method CancelJob(pid: string, confirmed: bool, timestamp: string)
      requires Valid()
      modifies this`pids, this`slot, this`messages, this`view
      ensures Valid()
      ensures !confirmed ==> pids == old(pids) && slot == old(slot) && messages == old(messages)
      ensures confirmed ==> pids == RemoveFirst(old(pids), pid)
      ensures confirmed ==> slot == LogSlot(pid, "Job " + pid + " cancelled from GUI", false)
      ensures confirmed ==> messages == old(messages) + [EntryOf(timestamp, slot)]
    {
      if !confirmed {
        return;
      }
      var kept := RemoveFirst(pids, pid);
      pids := kept;
      slot := LogSlot(pid, "Job " + pid + " cancelled from GUI", false);
      AddLogEntry(timestamp);
    }

    /**
      The interactive path of `click_launch`: the variable list is built
      and cleaned, the reservation is checked, and the launch stops when a
      reservation is asked for without an id or the project directory is
      missing; otherwise the job is submitted. `registryFound` is whether
      `update_registry` found the project directory.
    */
    method LaunchInteractive(form: InteractiveRequest, userEnv: string, admin: seq<(string, string)>,
                             checked: bool, idText: string, registryFound: bool, spec: QueueSpec,
                             outcome: Result<string, string>, timestamp: string)
      returns (choice: ReservationChoice, command: Option<string>)
      requires Valid()
      modifies this`pids, this`slot, this`messages, this`view
      ensures Valid()
      ensures choice == CheckReservation(checked, idText)
      ensures LaunchAborts(choice) || !registryFound ==>
                && command == None
                && pids == old(pids) && slot == old(slot) && messages == old(messages) && view == old(view)
      ensures !LaunchAborts(choice) && registryFound ==>
                var req := LaunchRequest(form, userEnv, admin, choice);
                command == if InteractiveCommand(req, spec).Success?
                           then Some(Join(InteractiveCommand(req, spec).value, " "))
                           else None
      ensures command.None? || (outcome.Success? && LastToken(outcome.value).None?) ==>
                slot == old(slot) && pids == old(pids) && messages == old(messages)
      ensures command.Some? && outcome.Failure? ==>
                && slot == old(slot).(msg := outcome.error, scheduler := true)
                && pids == old(pids)
                && messages == old(messages) + [EntryOf(timestamp, slot)]
      ensures command.Some? && outcome.Success? && LastToken(outcome.value).Some? ==>
                var pid := LastToken(outcome.value).value;
                && slot == LogSlot(pid, "Job submitted to " + form.queue + "\nSubmit Command:" + command.value, false)
                && pids == old(pids) + [pid]
                && messages == old(messages) + [EntryOf(timestamp, slot)]
    {
      var env := LaunchEnv(userEnv, admin);
      choice := CheckReservation(checked, idText);
      if choice.reservation && choice.id == [] {
        return choice, None;
      }
      if !registryFound {
        return choice, None;
      }
      var req := form.(env := env, reservation := choice.reservation, reservationId := choice.id);
      command := SubmitInteractiveJob(req, spec, outcome, timestamp);
    }

    /**
      `submit_interactive_job`. The count must read as an integer of at
      least 1, or nothing is submitted. The command is built part by part
      and joined with blanks; `outcome` is what running it gave: its output,
      or the output of the failing command. On success the last word of the
      output is the job id: it is tracked and a GUI message is logged. On
      failure the output is logged as a scheduler message, under whatever
      job id was staged before. An output with no word in it raises before
      anything is logged.
    */
    method SubmitInteractiveJob(req: InteractiveRequest, spec: QueueSpec, outcome: Result<string, string>,
                                timestamp: string)
      returns (command: Option<string>)
      requires Valid()
      modifies this`pids, this`slot, this`messages, this`view
      ensures Valid()
      ensures InteractiveCommand(req, spec).Failure? ==> command == None
      ensures InteractiveCommand(req, spec).Success? ==>
                command == Some(Join(InteractiveCommand(req, spec).value, " "))
      ensures command.None? || (outcome.Success? && LastToken(outcome.value).None?) ==>
                slot == old(slot) && pids == old(pids) && messages == old(messages)
      ensures command.Some? && outcome.Failure? ==>
                && slot == old(slot).(msg := outcome.error, scheduler := true)
                && pids == old(pids)
                && messages == old(messages) + [EntryOf(timestamp, slot)]
      ensures command.Some? && outcome.Success? && LastToken(outcome.value).Some? ==>
                var pid := LastToken(outcome.value).value;
                && slot == LogSlot(pid, "Job submitted to " + req.queue + "\nSubmit Command:" + command.value, false)
                && pids == old(pids) + [pid]
                && messages == old(messages) + [EntryOf(timestamp, slot)]
    {
      var count := CountOf(req.countText);
      if count.None? || count.value < 1 {
        return None;
      }
      var tokens := BuildCommand(req, count.value, spec);
      var line := Join(tokens, " ");
      command := Some(line);
      RecordSubmission(req.queue, line, outcome, timestamp);
    }

    /**
      What `submit_interactive_job` does with the result of running the
      command `line` on `queue`: a failure's output is logged as a
      scheduler message; a success's last word is tracked as the job id and
      a GUI message with the command is logged; an output with no word in
      it raises before anything is logged.
    */
    method RecordSubmission(queue: string, line: string, outcome: Result<string, string>, timestamp: string)
      requires Valid()
      modifies this`pids, this`slot, this`messages, this`view
      ensures Valid()
      ensures outcome.Success? && LastToken(outcome.value).None? ==>
                slot == old(slot) && pids == old(pids) && messages == old(messages)
      ensures outcome.Failure? ==>
                && slot == old(slot).(msg := outcome.error, scheduler := true)
                && pids == old(pids)
                && messages == old(messages) + [EntryOf(timestamp, slot)]
      ensures outcome.Success? && LastToken(outcome.value).Some? ==>
                var pid := LastToken(outcome.value).value;
                && slot == LogSlot(pid, "Job submitted to " + queue + "\nSubmit Command:" + line, false)
                && pids == old(pids) + [pid]
                && messages == old(messages) + [EntryOf(timestamp, slot)]
    {
      match outcome
      case Failure(out) =>
        slot := slot.(msg := out, scheduler := true);
        AddLogEntry(timestamp);
      case Success(out) =>
        var word := LastToken(out);
        if word.None? {
          return;
        }
        var pid := word.value;
        pids := pids + [pid];
        slot := LogSlot(pid, "Job submitted to " + queue + "\nSubmit Command:" + line, false);
        AddLogEntry(timestamp);
    }

    /** One artifact of the drain: read if present, staged and posted when non-empty, deleted. */
    method DrainFileStep(path: string, pid: string, prefix: string)
      modifies this`files, this`slot, this`signals
      ensures Drained(files, slot, signals) == DrainFile(Drained(old(files), old(slot), old(signals)), path, pid, prefix)
    {
      if path in files {
        var text := files[path];
        if text != "" {
          slot := LogSlot(pid, prefix + text, true);
          signals := signals + [LogSignal(slot)];
        }
        files := files - {path};
      }
    }

    /**
      The drain loop of `parse_user_jobs`: for every tracked job id, its
      output file and then its error file.
    */
    method DrainArtifacts()
      modifies this`files, this`slot, this`signals
      ensures Drained(files, slot, signals) == Drain(Drained(old(files), old(slot), old(signals)), userDir, pids)
    {
      ghost var start := Drained(files, slot, signals);
      var i := 0;
      while i < |pids|
        invariant 0 <= i <= |pids|
        invariant Drained(files, slot, signals) == Drain(start, userDir, pids[..i])
      {
        var pid := pids[i];
        DrainFileStep(OutputFile(userDir, pid), pid, "Submit Message: ");
        DrainFileStep(ErrorFile(userDir, pid), pid, "Submit Error: ");
        assert pids[..i + 1][..i] == pids[..i];
        i := i + 1;
      }
      assert pids[..i] == pids;
    }

    /**
      `parse_user_jobs`. The job list is cleared first; `output` is what
      `squeue` printed, or None when it failed, which ends the thread with
      the list left empty. Otherwise every line after the header is parsed
      and kept unless its node list names a VNC or DCV node, the window is
      told, and the artifacts of the tracked jobs are drained.
    */
    method ParseUserJobs(output: Option<seq<byte>>) returns (ok: bool)
      modifies this`jobs, this`files, this`slot, this`signals
      ensures ok <==> output.Some?
      ensures !ok ==> jobs == [] && files == old(files) && slot == old(slot) && signals == old(signals)
      ensures ok ==> jobs == ParseJobs(output.value, vncNodes, dcvNodes)
      ensures ok ==> Drained(files, slot, signals) ==
                       Drain(Drained(old(files), old(slot), old(signals) + [JobListSignal]), userDir, pids)
    {
      jobs := [];
      if output.None? {
        return false;
      }
      var body := Body(Split(DecodeAscii(output.value), '\n'));
      var exclude := vncNodes + dcvNodes;
      var i := 0;
      while i < |body|
        invariant 0 <= i <= |body|
        invariant jobs == Kept(body[..i], exclude)
        modifies this`jobs
      {
        var r := ParseLine(body[i]);
        var hit := IsExcluded(r.queueData, exclude);
        KeptStep(body[..i], body[i], exclude);
        TakeOneMore(body, i);
        if !hit {
          jobs := jobs + [r];
        }
        i := i + 1;
      }
      assert body[..i] == body;
      signals := signals + [JobListSignal];
      DrainArtifacts();
      ok := true;
    }

    /**
      `parse_cluster_load`: the entries of `QueueStatus` are applied in
      order, each count written in place as it is read; a missing key stops
      everything with what was written so far kept. The window is told only
      when the whole reply was applied; a failed request or a reply with no
      `QueueStatus` changes nothing.
    */
    method ParseClusterLoad(reply: ClusterReply) returns (ok: bool)
      modifies this`queues, this`signals
      ensures reply.RequestFailed? || reply.queueStatus.None? ==> !ok && queues == old(queues)
      ensures reply.Reply? && reply.queueStatus.Some? ==>
                Applied(queues, ok) == ApplyAll(old(queues), reply.queueStatus.value)
      ensures signals == old(signals) + (if ok then [ClusterLoadSignal] else [])
    {
      ok := false;
      if reply.RequestFailed? || reply.queueStatus.None? {
        return;
      }
      var es := reply.queueStatus.value;
      var i := 0;
      while i < |es|
        invariant 0 <= i <= |es|
        invariant ApplyAll(old(queues), es[..i]) == Applied(queues, true)
        modifies this`queues
      {
        ApplyAllStep(old(queues), es, i);
        var written := ApplyStatusEntry(es[i]);
        if !written {
          AbortSticky(old(queues), es, i + 1);
          return;
        }
        i := i + 1;
      }
      assert es[..i] == es;
      ok := true;
      signals := signals + [ClusterLoadSignal];
    }

    /**
      One element of `QueueStatus`: a known queue gets its five counts
      written one by one, stopping at the first missing key.
    */
    method ApplyStatusEntry(e: StatusEntry) returns (ok: bool)
      modifies this`queues
      ensures Applied(queues, ok) == ApplyEntry(old(queues), e)
    {
      if e.name.None? {
        return false;
      }
      var name := e.name.value;
      if name !in queues {
        return true;
      }
      ok := false;
      if TotalKey !in e.slots {
        return;
      }
      queues := queues[name := queues[name].(total := e.slots[TotalKey])];
      if UsedKey !in e.slots {
        return;
      }
      queues := queues[name := queues[name].(used := e.slots[UsedKey])];
      if FailedKey !in e.slots {
        return;
      }
      queues := queues[name := queues[name].(failed := e.slots[FailedKey])];
      if ReservedKey !in e.slots {
        return;
      }
      queues := queues[name := queues[name].(reserved := e.slots[ReservedKey])];
      if AvailKey !in e.slots {
        return;
      }
      queues := queues[name := queues[name].(avail := e.slots[AvailKey])];
      ok := true;
    }
  }

  /**
    The `sbatch` arguments as `submit_interactive_job` appends them: the
    fixed head, the node and task counts, the node list and the reservation
    when asked for, and the `--wrap` command with the total core count.
  */
  method BuildCommand(req: InteractiveRequest, n: int, spec: QueueSpec) returns (tokens: seq<string>)
    ensures tokens == CommandFor(req, n, spec)
  {
    tokens := ["sbatch", "--job-name", "aedt", "--partition", req.queue, "--export",
               req.env + ",DISPLAY=" + req.display];
    assert tokens == BaseTokens(req);
    var total;
    if req.perCore {
      tokens := tokens + ["--nodes", "1-1", "--ntasks", IntToString(n)];
      total := n;
    } else {
      total := spec.cores * n;
      tokens := tokens + ["--nodes", IntToString(n) + "-" + IntToString(n), "--ntasks", IntToString(total)];
    }
    assert tokens == BaseTokens(req) + CountTokens(req, n, spec);
    var nodeList := Remove(req.nodeListText, ' ');
    if req.nodeListChecked && nodeList != [] {
      tokens := tokens + ["--nodelist", nodeList];
    }
    assert tokens == BaseTokens(req) + CountTokens(req, n, spec) + NodeListTokens(req);
    if req.reservation {
      tokens := tokens + ["--reservation", req.reservationId];
    }
    assert tokens == BaseTokens(req) + CountTokens(req, n, spec) + NodeListTokens(req) + ReservationTokens(req);
    tokens := tokens + ["--wrap", WrapValue(req.aedtPath, total)];
  }
}
