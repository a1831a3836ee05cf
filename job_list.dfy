/**
  The job-list parser of the poller (run_gui.py:187-217): the text that
  `squeue --me --format "%.18i %.9P %.8j %.8u %.2t %.4C %.20V %R"` prints is
  decoded as ASCII, split into lines, stripped of its header line, cut at
  fixed character offsets, and every job whose node list names a VNC or DCV
  node is dropped.
*/
module JobList {
  import opened Text

  newtype byte = x: int | 0 <= x < 256

  /** One entry of `qstat_list`. */
  datatype JobRecord = JobRecord(
    pid: string,
    state: string,
    name: string,
    user: string,
    queueData: string,
    proc: string,
    started: string)

  /** `bytes.decode("ascii", errors="ignore")`: bytes above 127 are dropped, the others become characters. */
  function DecodeAscii(bs: seq<byte>): (s: string)
    ensures |s| <= |bs|
    ensures forall k :: 0 <= k < |s| ==> s[k] as int < 128
    ensures (forall k :: 0 <= k < |bs| ==> bs[k] < 128) ==>
              |s| == |bs| && forall k :: 0 <= k < |s| ==> s[k] as int == bs[k] as int
    decreases |bs|
  {
    if bs == [] then []
    else
      var rest := DecodeAscii(bs[1..]);
      if bs[0] < 128 then [bs[0] as int as char] + rest else rest
  }

  /** A byte of 128 or more is dropped; any other is the character with that code. */
  lemma DecodeAsciiByte(x: byte)
    ensures DecodeAscii([x]) == if x < 128 then [x as int as char] else []
  {
  }

  /** Decoding works byte by byte: the text of two pieces is the two texts one after the other. */
  lemma {:induction false} DecodeAsciiAppend(a: seq<byte>, b: seq<byte>)
    ensures DecodeAscii(a + b) == DecodeAscii(a) + DecodeAscii(b)
    decreases |a|
  {
    if a == [] {
      assert a + b == b;
    } else {
      assert (a + b)[1..] == a[1..] + b;
      DecodeAsciiAppend(a[1..], b);
    }
  }

  /** One stripped column: Python's `line[lo:hi].strip()`. */
  function Column(line: string, lo: nat, hi: nat): (r: string)
    requires lo <= hi
    ensures Trimmed(r) && |r| <= hi - lo
    ensures |line| <= lo ==> r == []
  {
    Strip(Slice(line, lo, hi))
  }

  /** The stripped rest of the line: Python's `line[lo:].strip()`. */
  function ColumnFrom(line: string, lo: nat): (r: string)
    ensures Trimmed(r)
    ensures |line| <= lo ==> r == []
  {
    Strip(Slice(line, lo, |line|))
  }

  /**
    One line cut at the parser's offsets: pid [0:18], name [29:38],
    user [38:47], state [48:49], cpu count [50:54], start time [54:75] and
    node list [76:], each stripped. A short line gives empty fields.
  */
  function ParseLine(line: string): (r: JobRecord)
    ensures Trimmed(r.pid) && |r.pid| <= 18
    ensures Trimmed(r.name) && |r.name| <= 9
    ensures Trimmed(r.user) && |r.user| <= 9
    ensures Trimmed(r.state) && |r.state| <= 1
    ensures Trimmed(r.proc) && |r.proc| <= 4
    ensures Trimmed(r.started) && |r.started| <= 21
    ensures Trimmed(r.queueData)
    ensures |line| <= 29 ==> r.name == r.user == r.state == r.proc == r.started == r.queueData == []
  {
    JobRecord(
      pid := Column(line, 0, 18),
      state := Column(line, 48, 49),
      name := Column(line, 29, 38),
      user := Column(line, 38, 47),
      queueData := ColumnFrom(line, 76),
      proc := Column(line, 50, 54),
      started := Column(line, 54, 75))
  }

  /** The record an empty line turns into. */
  const EmptyRecord := JobRecord([], [], [], [], [], [], [])

  /** A node list that names one of the excluded (VNC or DCV) nodes, by Python substring test. */
  predicate Excluded(nodeList: string, exclude: seq<string>)
    decreases |exclude|
  {
    exclude != [] && (Contains(nodeList, exclude[0]) || Excluded(nodeList, exclude[1..]))
  }

  /** A node list is excluded exactly when one of the excluded node names occurs in it. */
  lemma {:induction false} ExcludedAt(nodeList: string, exclude: seq<string>)
    ensures Excluded(nodeList, exclude) <==> exists i :: 0 <= i < |exclude| && Contains(nodeList, exclude[i])
    decreases |exclude|
  {
    if exclude != [] {
      ExcludedAt(nodeList, exclude[1..]);
      if exists i :: 0 <= i < |exclude[1..]| && Contains(nodeList, exclude[1..][i]) {
        var i :| 0 <= i < |exclude[1..]| && Contains(nodeList, exclude[1..][i]);
        assert exclude[i + 1] == exclude[1..][i];
      }
      if exists i :: 0 <= i < |exclude| && Contains(nodeList, exclude[i]) {
        var i :| 0 <= i < |exclude| && Contains(nodeList, exclude[i]);
        if i > 0 {
          assert exclude[1..][i - 1] == exclude[i];
        }
      }
    }
  }

  /**
    The inner `for node in exclude` loop of the parser: it stops at the first
    excluded node name found in the node list; reaching its `else` means the
    job is kept.
  */
  method IsExcluded(nodeList: string, exclude: seq<string>) returns (hit: bool)
    ensures hit <==> Excluded(nodeList, exclude)
    ensures hit <==> exists i :: 0 <= i < |exclude| && Contains(nodeList, exclude[i])
  {
    ExcludedAt(nodeList, exclude);
    hit := false;
    var i := 0;
    while i < |exclude|
      invariant 0 <= i <= |exclude|
      invariant forall j :: 0 <= j < i ==> !Contains(nodeList, exclude[j])
    {
      if Contains(nodeList, exclude[i]) {
        hit := true;
        break;
      }
      i := i + 1;
    }
  }

  /** Every line parsed, in order. */
  function ParseAll(lines: seq<string>): (rs: seq<JobRecord>)
    ensures |rs| == |lines|
    decreases |lines|
  {
    if lines == [] then [] else ParseAll(lines[..|lines| - 1]) + [ParseLine(lines[|lines| - 1])]
  }

  /** The records whose node list is not excluded, in order. */
  function Keep(rs: seq<JobRecord>, exclude: seq<string>): (ks: seq<JobRecord>)
    ensures |ks| <= |rs|
    ensures forall k :: 0 <= k < |ks| ==> !Excluded(ks[k].queueData, exclude)
    decreases |rs|
  {
    if rs == [] then []
    else
      var r := rs[|rs| - 1];
      Keep(rs[..|rs| - 1], exclude) + (if Excluded(r.queueData, exclude) then [] else [r])
  }

  /** The records the parser appends for `lines`: one per line whose node list is not excluded. */
  function Kept(lines: seq<string>, exclude: seq<string>): (ks: seq<JobRecord>)
    ensures |ks| <= |lines|
    ensures forall k :: 0 <= k < |ks| ==> !Excluded(ks[k].queueData, exclude)
  {
    Keep(ParseAll(lines), exclude)
  }

  /** Python's `lines[1:]`: everything after the header line. */
  function Body(lines: seq<string>): (b: seq<string>)
    ensures |b| == if lines == [] then 0 else |lines| - 1
  {
    if lines == [] then [] else lines[1..]
  }

  /**
    The whole of `qstat_list` after one successful poll: at most one record
    per line after the header, none of them on a VNC or DCV node.
  */
  function ParseJobs(output: seq<byte>, vncNodes: seq<string>, dcvNodes: seq<string>): (jobs: seq<JobRecord>)
    ensures |jobs| < |Split(DecodeAscii(output), '\n')|
    ensures forall k :: 0 <= k < |jobs| ==> !Excluded(jobs[k].queueData, vncNodes + dcvNodes)
  {
    Kept(Body(Split(DecodeAscii(output), '\n')), vncNodes + dcvNodes)
  }

  /** Parsing one more line adds its record, if kept, at the end. */
  lemma KeptStep(lines: seq<string>, line: string, exclude: seq<string>)
    ensures Kept(lines + [line], exclude) ==
            Kept(lines, exclude) + (if Excluded(ParseLine(line).queueData, exclude) then [] else [ParseLine(line)])
  {
    var all := lines + [line];
    assert all[..|all| - 1] == lines;
    var ps := ParseAll(all);
    assert ps[..|ps| - 1] == ParseAll(lines);
  }

  /** A record is kept exactly when it is one of the input records and its node list is not excluded. */
  lemma {:induction false} KeepMembership(rs: seq<JobRecord>, exclude: seq<string>, r: JobRecord)
    ensures r in Keep(rs, exclude) <==> r in rs && !Excluded(r.queueData, exclude)
    decreases |rs|
  {
    if rs != [] {
      var init := rs[..|rs| - 1];
      KeepMembership(init, exclude, r);
      assert rs == init + [rs[|rs| - 1]];
    }
  }

  /** Input order is kept: the records of two runs are the records of each, one after the other. */
  lemma {:induction false} KeepAppend(a: seq<JobRecord>, b: seq<JobRecord>, exclude: seq<string>)
    ensures Keep(a + b, exclude) == Keep(a, exclude) + Keep(b, exclude)
    decreases |b|
  {
    if b == [] {
      assert a + b == a;
    } else {
      var b' := b[..|b| - 1];
      assert (a + b)[..|a + b| - 1] == a + b';
      assert (a + b)[|a + b| - 1] == b[|b| - 1];
      KeepAppend(a, b', exclude);
    }
  }

  /** `ParseAll` parses each line on its own. */
  lemma {:induction false} ParseAllAt(lines: seq<string>, i: nat)
    requires i < |lines|
    ensures ParseAll(lines)[i] == ParseLine(lines[i])
    decreases |lines|
  {
    if i < |lines| - 1 {
      ParseAllAt(lines[..|lines| - 1], i);
    }
  }

  /** No record of the job list runs on an excluded node, and each comes from one line of the input. */
  lemma KeptSound(lines: seq<string>, exclude: seq<string>, r: JobRecord)
    requires r in Kept(lines, exclude)
    ensures !Excluded(r.queueData, exclude)
    ensures exists i :: 0 <= i < |lines| && ParseLine(lines[i]) == r
  {
    var ps := ParseAll(lines);
    KeepMembership(ps, exclude, r);
    var i :| 0 <= i < |ps| && ps[i] == r;
    ParseAllAt(lines, i);
  }

  /** Every line whose node list names no excluded node is in the job list. */
  lemma KeptComplete(lines: seq<string>, exclude: seq<string>, i: nat)
    requires i < |lines| && !Excluded(ParseLine(lines[i]).queueData, exclude)
    ensures ParseLine(lines[i]) in Kept(lines, exclude)
  {
    ParseAllAt(lines, i);
    KeepMembership(ParseAll(lines), exclude, ParseLine(lines[i]));
  }

  /**
    The empty line after squeue's final newline becomes an all-empty record
    at the end of the list, unless an excluded node name is itself empty.
  */
  lemma TrailingEmptyLine(lines: seq<string>, exclude: seq<string>)
    requires forall i :: 0 <= i < |exclude| ==> exclude[i] != []
    ensures Kept(lines + [[]], exclude) == Kept(lines, exclude) + [EmptyRecord]
  {
    var e := ParseLine([]);
    assert e == EmptyRecord;
    assert !Excluded(e.queueData, exclude) by {
      NothingExcludesEmpty(exclude);
    }
    KeptStep(lines, [], exclude);
  }

  lemma {:induction false} NothingExcludesEmpty(exclude: seq<string>)
    requires forall i :: 0 <= i < |exclude| ==> exclude[i] != []
    ensures !Excluded([], exclude)
    decreases |exclude|
  {
    if exclude != [] {
      assert !(exclude[0] <= []);
      NothingExcludesEmpty(exclude[1..]);
    }
  }

  /** One row of squeue's output before formatting, with the job state in its compact form (`R`, `PD`, ...). */
  datatype SqueueRow = SqueueRow(
    jobId: string,
    partition: string,
    name: string,
    user: string,
    state: string,
    cpus: string,
    startTime: string,
    nodeList: string)

  function Spaces(n: nat): (s: string)
    ensures |s| == n && AllSpace(s)
  {
    if n == 0 then [] else Spaces(n - 1) + " "
  }

  /** squeue's `%.Nx`: right-justified in a field of width N. */
  function RightJustify(s: string, width: nat): (r: string)
    requires |s| <= width
    ensures |r| == width
  {
    Spaces(width - |s|) + s
  }

  /** Every field fits its column and carries no white space at its ends. */
  predicate Fits(row: SqueueRow) {
    && |row.jobId| <= 18 && |row.partition| <= 9 && |row.name| <= 8 && |row.user| <= 8
    && 1 <= |row.state| <= 2 && |row.cpus| <= 4 && |row.startTime| <= 20
    && Trimmed(row.jobId) && Trimmed(row.name) && Trimmed(row.user) && NoSpace(row.state)
    && Trimmed(row.cpus) && Trimmed(row.startTime) && Trimmed(row.nodeList)
  }

  /** The line `%.18i %.9P %.8j %.8u %.2t %.4C %.20V %R` prints for one row. */
  function FormatRow(row: SqueueRow): (line: string)
    requires Fits(row)
    ensures |line| == 76 + |row.nodeList|
  {
    RightJustify(row.jobId, 18) + " " + RightJustify(row.partition, 9) + " "
    + RightJustify(row.name, 8) + " " + RightJustify(row.user, 8) + " "
    + RightJustify(row.state, 2) + " " + RightJustify(row.cpus, 4) + " "
    + RightJustify(row.startTime, 20) + " " + row.nodeList
  }

  lemma SliceOfLeft(a: string, b: string, i: nat, j: nat)
    requires i <= j <= |a|
    ensures (a + b)[i..j] == a[i..j]
  {
  }

  lemma SliceOfRight(a: string, b: string)
    ensures (a + b)[|a|..|a| + |b|] == b
  {
  }

  /** The formatted line up to and including the state field. */
  function StatePrefix(row: SqueueRow): (p: string)
    requires Fits(row)
    ensures |p| == 49
  {
    RightJustify(row.jobId, 18) + " " + RightJustify(row.partition, 9) + " "
    + RightJustify(row.name, 8) + " " + RightJustify(row.user, 8) + " "
    + RightJustify(row.state, 2)
  }

  /** A formatted row is its state prefix followed by the remaining fields. */
  lemma FormatRowSplit(row: SqueueRow)
    requires Fits(row)
    ensures FormatRow(row) == StatePrefix(row) + (" " + RightJustify(row.cpus, 4) + " "
              + RightJustify(row.startTime, 20) + " " + row.nodeList)
  {
  }

  /** Where the job id, name, user and state lie in the line. */
  lemma StatePrefixLayout(row: SqueueRow)
    requires Fits(row)
    ensures StatePrefix(row)[0..18] == RightJustify(row.jobId, 18)
    ensures StatePrefix(row)[29..38] == RightJustify(row.name, 8) + " "
    ensures StatePrefix(row)[38..47] == RightJustify(row.user, 8) + " "
    ensures StatePrefix(row)[48..49] == [RightJustify(row.state, 2)[1]]
  {
    var p1 := RightJustify(row.jobId, 18);
    var p2 := p1 + " " + RightJustify(row.partition, 9) + " ";
    var p3 := p2 + RightJustify(row.name, 8) + " ";
    var p4 := p3 + RightJustify(row.user, 8) + " ";
    var p5 := p4 + RightJustify(row.state, 2);
    assert StatePrefix(row) == p5;
    SliceOfLeft(p4, RightJustify(row.state, 2), 0, 18);
    SliceOfLeft(p3 + RightJustify(row.user, 8), " ", 0, 18);
    SliceOfLeft(p3, RightJustify(row.user, 8), 0, 18);
    SliceOfLeft(p2 + RightJustify(row.name, 8), " ", 0, 18);
    SliceOfLeft(p2, RightJustify(row.name, 8), 0, 18);
    assert p5[29..38] == p3[29..38];
    assert p5[38..47] == p4[38..47];
  }

  /** Where the cpu count, start time and node list lie in the rest of the line. */
  lemma TailLayout(cpus: string, startTime: string, nodeList: string)
    requires |cpus| <= 4 && |startTime| <= 20
    ensures (" " + RightJustify(cpus, 4) + " " + RightJustify(startTime, 20) + " " + nodeList)[1..5]
              == RightJustify(cpus, 4)
    ensures (" " + RightJustify(cpus, 4) + " " + RightJustify(startTime, 20) + " " + nodeList)[5..26]
              == " " + RightJustify(startTime, 20)
    ensures (" " + RightJustify(cpus, 4) + " " + RightJustify(startTime, 20) + " " + nodeList)[27..]
              == nodeList
  {
  }

  /** Where each field of a formatted row lies in the line. */
  lemma FormatRowLayout(row: SqueueRow)
    requires Fits(row)
    ensures FormatRow(row)[0..18] == RightJustify(row.jobId, 18)
    ensures FormatRow(row)[29..38] == RightJustify(row.name, 8) + " "
    ensures FormatRow(row)[38..47] == RightJustify(row.user, 8) + " "
    ensures FormatRow(row)[48..49] == [RightJustify(row.state, 2)[1]]
    ensures FormatRow(row)[50..54] == RightJustify(row.cpus, 4)
    ensures FormatRow(row)[54..75] == " " + RightJustify(row.startTime, 20)
    ensures FormatRow(row)[76..] == row.nodeList
  {
    var p := StatePrefix(row);
    var t := " " + RightJustify(row.cpus, 4) + " " + RightJustify(row.startTime, 20) + " " + row.nodeList;
    FormatRowSplit(row);
    StatePrefixLayout(row);
    TailLayout(row.cpus, row.startTime, row.nodeList);
    SliceOfLeft(p, t, 0, 18);
    SliceOfLeft(p, t, 29, 38);
    SliceOfLeft(p, t, 38, 47);
    SliceOfLeft(p, t, 48, 49);
    assert (p + t)[50..54] == t[1..5];
    assert (p + t)[54..75] == t[5..26];
    assert (p + t)[76..] == t[27..];
  }

  /** A column cut exactly around a right-justified field, with white space around it, yields the field. */
  lemma JustifiedColumn(line: string, lo: nat, hi: nat, lead: string, x: string, w: nat, trail: string)
    requires Trimmed(x) && |x| <= w && AllSpace(lead) && AllSpace(trail)
    requires lo <= hi <= |line| && line[lo..hi] == lead + RightJustify(x, w) + trail
    ensures Column(line, lo, hi) == x
  {
    var pad := lead + Spaces(w - |x|);
    assert AllSpace(pad) by {
      forall k | 0 <= k < |pad| ensures IsSpace(pad[k]) {
        if k < |lead| { assert pad[k] == lead[k]; } else { assert pad[k] == Spaces(w - |x|)[k - |lead|]; }
      }
    }
    assert line[lo..hi] == pad + x + trail;
    StripPadded(pad, x, trail);
  }

  lemma TrimmedTail(line: string, lo: nat)
    requires lo <= |line| && Trimmed(line[lo..])
    ensures ColumnFrom(line, lo) == line[lo..]
  {
    assert Slice(line, lo, |line|) == line[lo..];
  }

  /** A right-justified field that fills its column exactly. */
  lemma FullColumn(line: string, lo: nat, hi: nat, x: string)
    requires Trimmed(x) && lo + |x| <= hi <= |line|
    requires line[lo..hi] == RightJustify(x, hi - lo)
    ensures Column(line, lo, hi) == x
  {
    assert line[lo..hi] == [] + RightJustify(x, hi - lo) + [];
    JustifiedColumn(line, lo, hi, [], x, hi - lo, []);
  }

  /** A right-justified field followed by one blank. */
  lemma BlankEndedColumn(line: string, lo: nat, hi: nat, x: string)
    requires Trimmed(x) && lo + |x| < hi <= |line|
    requires line[lo..hi] == RightJustify(x, hi - lo - 1) + " "
    ensures Column(line, lo, hi) == x
  {
    assert line[lo..hi] == [] + RightJustify(x, hi - lo - 1) + " ";
    JustifiedColumn(line, lo, hi, [], x, hi - lo - 1, " ");
  }

  /** A right-justified field preceded by one blank. */
  lemma BlankLedColumn(line: string, lo: nat, hi: nat, x: string)
    requires Trimmed(x) && lo + |x| < hi <= |line|
    requires line[lo..hi] == " " + RightJustify(x, hi - lo - 1)
    ensures Column(line, lo, hi) == x
  {
    assert line[lo..hi] == " " + RightJustify(x, hi - lo - 1) + [];
    JustifiedColumn(line, lo, hi, " ", x, hi - lo - 1, []);
  }

  /** The state column holds the last character of the two-character state field. */
  lemma StateColumn(line: string, state: string)
    requires 1 <= |state| <= 2 && NoSpace(state) && |line| >= 49
    requires line[48..49] == [RightJustify(state, 2)[1]]
    ensures Column(line, 48, 49) == [state[|state| - 1]]
  {
    var c := state[|state| - 1];
    assert RightJustify(state, 2)[1] == c;
    assert RightJustify([c], 1) == [c];
    FullColumn(line, 48, 49, [c]);
  }

  /** The job id, name, user and state columns of a line laid out as squeue formats a row. */
  lemma ParseLeftColumns(line: string, row: SqueueRow)
    requires Trimmed(row.jobId) && |row.jobId| <= 18
    requires Trimmed(row.name) && |row.name| <= 8 && Trimmed(row.user) && |row.user| <= 8
    requires 1 <= |row.state| <= 2 && NoSpace(row.state) && |line| >= 76
    requires line[0..18] == RightJustify(row.jobId, 18)
    requires line[29..38] == RightJustify(row.name, 8) + " "
    requires line[38..47] == RightJustify(row.user, 8) + " "
    requires line[48..49] == [RightJustify(row.state, 2)[1]]
    ensures ParseLine(line).pid == row.jobId
    ensures ParseLine(line).name == row.name
    ensures ParseLine(line).user == row.user
    ensures ParseLine(line).state == [row.state[|row.state| - 1]]
  {
    FullColumn(line, 0, 18, row.jobId);
    BlankEndedColumn(line, 29, 38, row.name);
    BlankEndedColumn(line, 38, 47, row.user);
    StateColumn(line, row.state);
  }

  /** The cpu count, start time and node list columns of a line laid out as squeue formats a row. */
  lemma ParseRightColumns(line: string, row: SqueueRow)
    requires Trimmed(row.cpus) && |row.cpus| <= 4 && Trimmed(row.startTime) && |row.startTime| <= 20
    requires Trimmed(row.nodeList) && |line| >= 76
    requires line[50..54] == RightJustify(row.cpus, 4)
    requires line[54..75] == " " + RightJustify(row.startTime, 20)
    requires line[76..] == row.nodeList
    ensures ParseLine(line).proc == row.cpus
    ensures ParseLine(line).started == row.startTime
    ensures ParseLine(line).queueData == row.nodeList
  {
    FullColumn(line, 50, 54, row.cpus);
    BlankLedColumn(line, 54, 75, row.startTime);
    TrimmedTail(line, 76);
  }

  /**
    Parsing a formatted row gives back every field except the state, of which
    only the last character survives: the state column is two characters wide
    but the parser reads one, so a pending job (`PD`) shows as `D`.
  */
  lemma ParseFormattedRow(row: SqueueRow)
    requires Fits(row)
    ensures ParseLine(FormatRow(row)) == JobRecord(
              row.jobId, [row.state[|row.state| - 1]], row.name, row.user,
              row.nodeList, row.cpus, row.startTime)
  {
    var line := FormatRow(row);
    FormatRowLayout(row);
    ParseLeftColumns(line, row);
    ParseRightColumns(line, row);
  }
}
