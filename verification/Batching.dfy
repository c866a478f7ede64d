/** From the source to the replies: the client numbers the lines and cuts them into subtasks
(client_src/TaskBuilder.cpp:51-119), the server splits each subtask into reused vectors
(Task.cpp:16-26), the echo policy strips the ids (policy/EchoPolicy.cpp:13-30), and the session
concatenates the responses (Session.cpp:66-71). */
module Batching {
  import opened Utility
  import opened Decimal
  import opened Chunks
  import Header
  import Lines

  const TASK_MAX_SIZE: nat := 10000

  // ------------------------------------------------------------------------- request ids

  /** `getRequestId` */
  function RequestId(index: nat): string {
    "[" + ToCharsBoost(index, false) + "]"
  }

  /** The length of what `^\[\d+\]` matches. */
  function IdLength(s: string): (n: nat)
    ensures n <= |s|
  {
    if s == "" || s[0] != '[' then 0
    else
      var k := DigitPrefix(s[1..]);
      if k > 0 && k + 1 < |s| && s[k + 1] == ']' then k + 2 else 0
  }

  /** A bracket, digits, at least one, and a bracket. */
  ghost predicate IsId(s: string) {
    |s| >= 3 && s[0] == '[' && s[|s| - 1] == ']' && AllDigits(s[1..|s| - 1])
  }

  lemma IdLengthIff(s: string, n: nat)
    requires 0 < n <= |s|
    ensures IdLength(s) == n <==> IsId(s[..n])
  {
    var k := if s[0] == '[' then DigitPrefix(s[1..]) else 0;
    assert k <= |s[1..]| && s[1..][..k] == s[1..k + 1];
    if IdLength(s) == n {
      assert s[..n][1..n - 1] == s[1..k + 1];
    }
    if IsId(s[..n]) {
      assert s[1..][..n - 2] == s[..n][1..n - 1];
      assert s[1..][n - 2] == s[..n][n - 1];
      DigitPrefixIs(s[1..], n - 2);
    }
  }

  /** A line that does not start with an id is echoed as it is. */
  lemma NoIdEchoed(input: string)
    requires forall n :: 0 < n <= |input| ==> !IsId(input[..n])
    ensures Echoed(input) == input + ['\n']
  {
    var s := input + ['\n'];
    forall n | 0 < n <= |s| ensures !IsId(s[..n]) {
      if n <= |input| {
        assert s[..n] == input[..n];
      } else {
        assert s[..n][n - 1] == '\n';
      }
    }
    hide IsId, IdLength;
    if IdLength(s) > 0 {
      IdLengthIff(s, IdLength(s));
    }
  }

  /** `EchoPolicy::operator()` */
  method Echo(input: string) returns (result: string)
    ensures result == Echoed(input)
  {
    var buffer := input;
    buffer := buffer + ['\n'];
    result := buffer;
    var n := IdLength(buffer);
    if n > 0 {
      result := result[n..];
    }
  }

  ghost function Echoed(input: string): string {
    (input + ['\n'])[IdLength(input + ['\n'])..]
  }

  /** The echo removes exactly the id, even if the line itself looks like one. */
  lemma EchoStripsId(index: nat, line: string)
    ensures Echoed(RequestId(index) + line) == line + ['\n']
  {
    var digits := ToCharsBoost(index, false);
    ToCharsValue(index);
    var s := RequestId(index) + line + ['\n'];
    assert s[1..] == digits + ("]" + line + ['\n']);
    assert s[1..][..|digits|] == digits;
    DigitPrefixIs(s[1..], |digits|);
    assert s[|digits| + 1] == ']';
    assert s == RequestId(index) + (line + ['\n']) && |RequestId(index)| == |digits| + 2;
    assert s[|digits| + 2..] == line + ['\n'];
  }

  lemma {:induction false} IdHasNoNewline(index: nat)
    ensures '\n' !in RequestId(index)
  {
    ToCharsValue(index);
    var digits := ToCharsBoost(index, false);
    assert forall i :: 0 <= i < |digits| ==> digits[i] != '\n';
  }

  // -------------------------------------------------------------------- numbered requests

  /** Lines with their delimiters, none inside. */
  ghost predicate AreLines(lines: seq<string>) {
    forall i :: 0 <= i < |lines| ==> IsLine(lines[i])
  }

  ghost predicate IsLine(line: string) {
    line != "" && line[|line| - 1] == '\n' && '\n' !in line[..|line| - 1]
  }

  /** Lines number `first` and following, each with its id, one after the other. */
  ghost function Numbered(lines: seq<string>, first: nat): string {
    if lines == [] then "" else RequestId(first) + lines[0] + Numbered(lines[1..], first + 1)
  }

  lemma {:induction false} NumberedAppend(a: seq<string>, b: seq<string>, first: nat)
    ensures Numbered(a + b, first) == Numbered(a, first) + Numbered(b, first + |a|)
  {
    hide RequestId, Numbered;
    if a == [] {
      assert a + b == b;
      NumberedNone(first);
    } else {
      NumberedAppend(a[1..], b, first + 1);
      assert a + b == [a[0]] + (a[1..] + b) && a == [a[0]] + a[1..];
      NumberedCons(a[0], a[1..] + b, first);
      NumberedCons(a[0], a[1..], first);
      StringAssoc(RequestId(first) + a[0], Numbered(a[1..], first + 1), Numbered(b, first + 1 + |a[1..]|));
    }
  }

  lemma NumberedNone(first: nat)
    ensures Numbered([], first) == ""
  {
  }

  lemma NumberedCons(line: string, rest: seq<string>, first: nat)
    ensures Numbered([line] + rest, first) == RequestId(first) + line + Numbered(rest, first + 1)
  {
    hide RequestId;
    assert ([line] + rest)[1..] == rest;
  }

  lemma NumberedOne(line: string, first: nat)
    ensures Numbered([line], first) == RequestId(first) + line
  {
    hide RequestId;
    assert [line][1..] == [];
    assert Numbered([], first + 1) == "";
  }

  /** The requests the server finds in a batch: the numbered lines, without delimiters. */
  ghost function Requests(lines: seq<string>, first: nat): (r: seq<string>)
    requires AreLines(lines)
    ensures |r| == |lines|
  {
    seq(|lines|, i requires 0 <= i < |lines| => RequestId(first + i) + lines[i][..|lines[i]| - 1])
  }

  /** Splitting a batch gives back its lines, all of them terminated. */
  lemma {:induction false} BatchSplits(lines: seq<string>, first: nat)
    requires AreLines(lines)
    ensures Rows(Numbered(lines, first), '\n', 0) == Requests(lines, first)
    ensures Terminated(Numbered(lines, first), '\n') == |lines|
  {
    hide RequestId, Rows, Terminated;
    if lines == [] {
      NoRows("", '\n', 0);
    } else {
      var body := lines[0][..|lines[0]| - 1];
      var rest := Numbered(lines[1..], first + 1);
      BatchSplits(lines[1..], first + 1);
      IdHasNoNewline(first);
      assert IsLine(lines[0]);
      assert lines[0] == body + ['\n'];
      assert Numbered(lines, first) == (RequestId(first) + body) + ['\n'] + rest;
      RowsPrepend(RequestId(first) + body, rest, '\n', 0);
      RequestsCons(lines, first);
      assert (RequestId(first) + body + ['\n'])[..|RequestId(first) + body| + 0] == RequestId(first) + body;
    }
  }

  lemma RequestsCons(lines: seq<string>, first: nat)
    requires AreLines(lines) && lines != []
    ensures Requests(lines, first) == [RequestId(first) + lines[0][..|lines[0]| - 1]] + Requests(lines[1..], first + 1)
  {
    hide RequestId;
  }

  // --------------------------------------------------------------------------- the server

  ghost function EchoAll(rows: seq<string>): (r: seq<string>)
    ensures |r| == |rows|
  {
    seq(|rows|, i requires 0 <= i < |rows| => Echoed(rows[i]))
  }

  /** The reply to a request: the echoes of its terminated rows. */
  ghost function EchoReply(request: string): string {
    RowCount(request, '\n', 0);
    Concat(EchoAll(Rows(request, '\n', 0)[..Terminated(request, '\n')]))
  }

  /** `Task::update`, the workers, and `Session::buildReply`, on vectors that hold the rows and the
  responses of earlier batches: the reply depends on the request alone. */
  method Serve(request: string, requests: seq<string>, response: seq<string>)
    returns (reply: string, requests': seq<string>, response': seq<string>)
    ensures reply == EchoReply(request)
  {
    hide Rows, Terminated, Overlay, Echoed, Concat;
    var size;
    requests', size := SplitReuseVector(request, requests, '\n', 0);
    RowCount(request, '\n', 0);
    ghost var rows := Rows(request, '\n', 0)[..size];
    RowsInFront(Rows(request, '\n', 0), requests, requests', size);
    response' := Resize(response, size);
    for i := 0 to size
      invariant |response'| == size
      invariant forall k :: 0 <= k < i ==> response'[k] == Echoed(rows[k])
    {
      assert requests'[i] == requests'[..size][i];
      var result := Echo(requests'[i]);
      response' := response'[i := result];
    }
    assert response' == EchoAll(rows);
    reply := Joined(response');
  }

  /** `_responseData += entry` */
  method Joined(response: seq<string>) returns (data: string)
    ensures data == Concat(response)
  {
    hide Concat;
    data := "";
    assert Concat(response[..0]) == "" by { ConcatNone(); }
    for i := 0 to |response|
      invariant data == Concat(response[..i])
    {
      ConcatSnoc(response, i);
      data := data + response[i];
    }
    assert response[..|response|] == response;
  }

  lemma RowsInFront(made: seq<string>, stale: seq<string>, rows: seq<string>, size: nat)
    requires rows == Overlay(made, stale) && size <= |made|
    ensures size <= |rows| && rows[..size] == made[..size]
  {
  }

  method Resize(s: seq<string>, n: nat) returns (r: seq<string>)
    ensures |r| == n && forall i :: 0 <= i < n && i < |s| ==> r[i] == s[i]
  {
    r := if n <= |s| then s[..n] else s + seq(n - |s|, _ => "");
  }

  lemma ConcatSnoc(rows: seq<string>, i: nat)
    requires i < |rows|
    ensures Concat(rows[..i + 1]) == Concat(rows[..i]) + rows[i]
  {
    hide Concat;
    assert rows[..i + 1] == rows[..i] + [rows[i]];
    ConcatAppend(rows[..i], [rows[i]]);
    ConcatOne(rows[i]);
  }

  lemma ConcatOne(row: string)
    ensures Concat([row]) == row
  {
    assert [row][1..] == [];
    assert Concat([]) == "";
  }

  /** The server's reply to numbered lines is the lines themselves. */
  lemma EchoesLines(lines: seq<string>, first: nat)
    requires AreLines(lines)
    ensures EchoReply(Numbered(lines, first)) == Concat(lines)
  {
    hide Rows, Terminated, Concat, Numbered, Requests, EchoAll;
    var request := Numbered(lines, first);
    BatchSplits(lines, first);
    RowCount(request, '\n', 0);
    var rows := Requests(lines, first);
    assert rows[..|lines|] == rows;
    Answers(lines, first);
  }

  lemma Answers(lines: seq<string>, first: nat)
    requires AreLines(lines)
    ensures EchoAll(Requests(lines, first)) == lines
  {
    hide RequestId, Echoed;
    forall k | 0 <= k < |lines| ensures EchoAll(Requests(lines, first))[k] == lines[k] {
      assert IsLine(lines[k]);
      EchoStripsId(first + k, lines[k][..|lines[k]| - 1]);
    }
  }

  // --------------------------------------------------------------------------- the client

  /** `Undefined` is not a status of the source: an id past the end of its table was asked for, or a
  search would start behind the data, and the language leaves open what comes of it. */
  datatype Status = NoStatus | SubtaskDone | TaskDone | Error | Undefined

  /** What a run over a source leaves: subtasks, each of numbered lines, in order. */
  ghost predicate CutInto(subtasks: seq<string>, groups: seq<seq<string>>, first: nat) {
    |subtasks| == |groups|
    && forall k :: 0 <= k < |groups| ==> subtasks[k] == Numbered(groups[k], first + |Flatten(groups[..k])|)
  }

  /** A batch of this size fills the buffer, together with a header. For a buffer smaller than a header
  the difference wraps around. */
  ghost predicate Fills(size: nat, bufferSize: nat) {
    size + Header.HEADER_SIZE >= if bufferSize >= Header.HEADER_SIZE then bufferSize else bufferSize + 0x1_0000_0000_0000_0000
  }

  /** Lines for one subtask: they fill the buffer, unless they are the last ones, and without the last
  of them they do not. */
  ghost predicate IsGroup(group: seq<string>, first: nat, bufferSize: nat, last: bool) {
    && group != []
    && (|group| == 1 || !Fills(|Numbered(group[..|group| - 1], first)|, bufferSize))
    && (last || Fills(|Numbered(group, first)|, bufferSize))
  }

  /** Lines that may still get another one. */
  ghost predicate IsOpen(group: seq<string>, first: nat, bufferSize: nat) {
    group == [] || !Fills(|Numbered(group, first)|, bufferSize)
  }

  ghost predicate AreGroups(groups: seq<seq<string>>, bufferSize: nat, done: bool) {
    forall k :: 0 <= k < |groups| ==>
      IsGroup(groups[k], |Flatten(groups[..k])|, bufferSize, done && k == |groups| - 1)
  }

  class TaskBuilder {
    const bufferSize: nat
    var batch: string
    var subtasks: seq<string>     // _data; the vector is reused
    var subtaskIndex: nat
    var status: Status
    ghost var groups: seq<seq<string>>  // the lines of each subtask so far

    /** The subtasks built so far are numbered lines, as many as the buffer takes. */
    ghost predicate Valid()
      reads this
    {
      && bufferSize < 0x1_0000_0000_0000_0000
      && |groups| <= |subtasks| && CutInto(subtasks[..|groups|], groups, 0)
      && AreGroups(groups, bufferSize, status == TaskDone)
      && (if status == TaskDone then |groups| == subtaskIndex + 1 else |groups| == subtaskIndex)
    }

    /** `_subtasks` may hold the subtasks of an earlier run. */
    constructor (bufferSize: nat, stale: seq<string>)
      requires bufferSize < 0x1_0000_0000_0000_0000
      ensures Valid() && status == NoStatus && groups == [] && this.bufferSize == bufferSize
    {
      this.bufferSize := bufferSize;
      batch, subtasks, subtaskIndex, status := "", stale, 0, NoStatus;
      groups := [];
    }

    /** `_bufferSize - HEADER_SIZE`, which wraps around for a tiny buffer. */
    function MaxSubtaskSize(): nat {
      (bufferSize - Header.HEADER_SIZE) % 0x1_0000_0000_0000_0000
    }

    /** `compressEncryptSubtask`, with the compression and encryption left out. */
    method StoreSubtask(alldone: bool, ghost lines: seq<string>)
      requires Valid() && status != TaskDone
      requires batch == Numbered(lines, |Flatten(groups)|) && IsGroup(lines, |Flatten(groups)|, bufferSize, alldone)
      modifies this`subtasks, this`subtaskIndex, this`status, this`groups
      ensures Valid() && groups == old(groups) + [lines]
      ensures status == if alldone then TaskDone else SubtaskDone
    {
      hide Numbered;
      if subtaskIndex >= |subtasks| {
        subtasks := subtasks + [""];
      }
      subtasks := subtasks[subtaskIndex := batch];
      CutNext(old(subtasks[..|groups|]), groups, lines, subtasks[..|groups| + 1]);
      GroupsNext(groups, lines, bufferSize, alldone);
      groups := groups + [lines];
      status := if alldone then TaskDone else SubtaskDone;
      if status == SubtaskDone {
        subtaskIndex := subtaskIndex + 1;
      }
    }

    /** `createSubtask`: lines with their ids, until the batch is big enough or the source ends. */
    method CreateSubtask(lines: Lines.StringLines, ghost all: seq<string>) returns (r: Status)
      requires Valid() && status != TaskDone && Reads(lines, groups, all)
      modifies this, lines, lines.buffer
      ensures Valid() && |lines.source| - lines.pos <= old(|lines.source| - lines.pos)
      ensures r == SubtaskDone ==>
        && Reads(lines, groups, all) && lines.pos > old(lines.pos) && status == SubtaskDone
        && lines.Ahead().ending == old(lines.Ahead()).ending && lines.WillGain() == old(lines.WillGain())
      ensures r == TaskDone ==> status == TaskDone && Flatten(groups) == all && lines.source != ""
                                && old(lines.Ahead()).ending == Lines.Finished
      ensures r == NoStatus ==> old(lines.Ahead()).ending == Lines.AtEmptyLine || lines.source == ""
      ensures r == Error ==> old(lines.Ahead()).ending == Lines.BufferTooSmall
      ensures r != SubtaskDone ==> (r == Undefined <==> |all| > TASK_MAX_SIZE || old(lines.WillGain()))
    {
      hide Numbered, CutInto, AreGroups, IsGroup, IsOpen, Fills, MaxSubtaskSize, RequestId, Flatten, Lines.Expected, Lines.StaleAhead, Lines.LineEnd, Lines.Moved, Lines.IsStuck, Lines.WindowEnd;
      hide Lines.StringLines.StaleNext, Lines.StringLines.Remembered, Lines.StringLines.Windowed, FindChar;
      batch := "";
      ghost var group: seq<string> := [];
      StartGroup(groups, group, all, lines);
      NoneOpen(|Flatten(groups)|, bufferSize);
      while true
        invariant Valid() && status == old(status) && groups == old(groups)
        invariant batch == Numbered(group, |Flatten(groups)|)
        invariant IsOpen(group, |Flatten(groups)|, bufferSize)
        invariant Reads(lines, groups + [group], all) && lines.Ahead().ending == old(lines.Ahead()).ending
        invariant lines.WillGain() == old(lines.WillGain())
        invariant lines.pos >= old(lines.pos)
        decreases |lines.source| - lines.pos
      {
        NotFinished(lines);
        ghost var ahead := lines.Ahead();
        var result, stale := lines.GetLine();
        match result {
          case Threw => return Error;
          case NoLine => return NoStatus;
          case GotLine(line) =>
            if stale {
              return Undefined;  // the next search starts behind the data
            }
            NextInGroup(groups, group, all, line, ahead.lines);
            if lines.index >= TASK_MAX_SIZE {
              return Undefined;  // past the end of the table of ids
            }
            CopyRequestWithId(line, lines.index);
            LimitIs(|batch|);
            LineAdded(group, line, |Flatten(groups)|, bufferSize);
            group := group + [line];
            var alldone := lines.last;
            if |batch| >= MaxSubtaskSize() || alldone {
              StoreSubtask(alldone, group);
              if alldone {
                NothingAhead(lines);
              }
              return status;
            }
        }
      }
    }

    lemma LimitIs(size: nat)
      requires bufferSize < 0x1_0000_0000_0000_0000
      ensures size >= MaxSubtaskSize() <==> Fills(size, bufferSize)
    {
    }

    /** `copyRequestWithId` */
    method CopyRequestWithId(line: string, index: nat)
      requires index < TASK_MAX_SIZE
      modifies this`batch
      ensures batch == old(batch) + (RequestId(index) + line)
    {
      batch := batch + (RequestId(index) + line);
    }
  }

  lemma StartGroup(groups: seq<seq<string>>, group: seq<string>, all: seq<string>, lines: Lines.StringLines)
    requires Reads(lines, groups, all) && group == []
    ensures Reads(lines, groups + [group], all) && Numbered(group, |Flatten(groups)|) == ""
  {
    hide Lines.Expected;
    FlattenNext(groups + [group], |groups|);
    assert (groups + [group])[..|groups| + 1] == groups + [group] && (groups + [group])[..|groups|] == groups;
    assert Flatten(groups) + group == Flatten(groups);
  }

  lemma NextInGroup(groups: seq<seq<string>>, group: seq<string>, all: seq<string>, line: string, ahead: seq<string>)
    requires ahead != [] && line == ahead[0] && Flatten(groups + [group]) + ahead == all
    ensures Flatten(groups + [group + [line]]) + ahead[1..] == all
    ensures |Flatten(groups + [group + [line]])| == |Flatten(groups + [group])| + 1
    ensures |Flatten(groups + [group])| == |Flatten(groups)| + |group| < |all|
    ensures Numbered(group + [line], |Flatten(groups)|)
            == Numbered(group, |Flatten(groups)|) + (RequestId(|Flatten(groups)| + |group|) + line)
  {
    hide Numbered, RequestId;
    FlattenSnoc(groups, group);
    FlattenSnoc(groups, group + [line]);
    assert ahead == [line] + ahead[1..];
    NumberedAppend(group, [line], |Flatten(groups)|);
    NumberedOne(line, |Flatten(groups)| + |group|);
  }

  lemma FlattenSnoc(groups: seq<seq<string>>, group: seq<string>)
    ensures Flatten(groups + [group]) == Flatten(groups) + group
  {
    assert (groups + [group])[..|groups|] == groups;
  }

  /** A reader that is not at the end of its source has not finished. */
  lemma NotFinished(lines: Lines.StringLines)
    requires lines.Valid() && (lines.source == "" || lines.pos < |lines.source|)
    ensures lines.source == "" || lines.Ahead() != Lines.Reading([], Lines.Finished)
  {
    hide FindChar, Lines.Expected;
    Lines.AheadIs(lines.source, lines.delimiter, lines.Keep(), lines.buffer.Length, lines.Window(), lines.pos);
  }

  lemma NothingAhead(lines: Lines.StringLines)
    requires lines.Valid() && lines.pos == |lines.source|
    ensures lines.Ahead() == Lines.Reading([], Lines.Finished) && !lines.WillGain()
  {
  }

  /** The reader is where the subtasks end, with lines left to read. */
  ghost predicate Reads(lines: Lines.StringLines, groups: seq<seq<string>>, all: seq<string>)
    reads lines, lines.buffer
  {
    && lines.Valid() && lines.delimiter == '\n' && lines.keepDelimiter
    && Flatten(groups) + lines.Ahead().lines == all && lines.index + 1 == |Flatten(groups)| <= TASK_MAX_SIZE
    && (lines.source == "" || lines.pos < |lines.source|)
  }

  lemma CutNext(subtasks: seq<string>, groups: seq<seq<string>>, lines: seq<string>, more: seq<string>)
    requires CutInto(subtasks, groups, 0)
    requires more == subtasks + [Numbered(lines, |Flatten(groups)|)]
    ensures CutInto(more, groups + [lines], 0)
  {
    hide Numbered, Flatten;
    var all := groups + [lines];
    forall k | 0 <= k < |all|
      ensures more[k] == Numbered(all[k], 0 + |Flatten(all[..k])|)
    {
      if k < |groups| {
        assert all[..k] == groups[..k];
      } else {
        assert all[..k] == groups;
      }
    }
  }

  lemma NoneOpen(first: nat, bufferSize: nat)
    ensures IsOpen([], first, bufferSize)
  {
  }

  lemma LineAdded(group: seq<string>, line: string, first: nat, bufferSize: nat)
    requires IsOpen(group, first, bufferSize)
    ensures IsGroup(group + [line], first, bufferSize, true)
    ensures if Fills(|Numbered(group + [line], first)|, bufferSize) then IsGroup(group + [line], first, bufferSize, false)
            else IsOpen(group + [line], first, bufferSize)
  {
    hide Numbered;
    assert (group + [line])[..|group + [line]| - 1] == group;
  }

  lemma GroupsNext(groups: seq<seq<string>>, group: seq<string>, bufferSize: nat, last: bool)
    requires AreGroups(groups, bufferSize, false) && IsGroup(group, |Flatten(groups)|, bufferSize, last)
    ensures AreGroups(groups + [group], bufferSize, last)
  {
    hide IsGroup, Flatten;
    var all := groups + [group];
    forall k | 0 <= k < |all| ensures IsGroup(all[k], |Flatten(all[..k])|, bufferSize, last && k == |all| - 1) {
      if k < |groups| {
        assert all[..k] == groups[..k];
      } else {
        assert all[..k] == groups;
      }
    }
  }

  lemma NumberedGrows(lines: seq<string>, m: nat, first: nat)
    requires m <= |lines|
    ensures |Numbered(lines[..m], first)| <= |Numbered(lines, first)|
  {
    hide Numbered;
    NumberedAppend(lines[..m], lines[m..], first);
    assert lines[..m] + lines[m..] == lines;
  }

  /** Two groups that start with the same line are the same, unless the lines end. */
  lemma SameGroup(a: seq<string>, b: seq<string>, first: nat, bufferSize: nat)
    requires IsGroup(a, first, bufferSize, false) && |a| < |b| && b[..|a|] == a
    ensures |b| > 1 && Fills(|Numbered(b[..|b| - 1], first)|, bufferSize)
  {
    hide Numbered;
    assert b[..|b| - 1][..|a|] == a;
    NumberedGrows(b[..|b| - 1], |a|, first);
  }

  /** The lines and the size of the buffer determine the subtasks. */
  lemma GroupsAreUnique(a: seq<seq<string>>, b: seq<seq<string>>, bufferSize: nat)
    requires AreGroups(a, bufferSize, true) && AreGroups(b, bufferSize, true) && Flatten(a) == Flatten(b)
    ensures a == b
  {
    assert a[..0] == b[..0];
    SameFrom(a, b, bufferSize, 0);
  }

  lemma {:induction false} SameFrom(a: seq<seq<string>>, b: seq<seq<string>>, bufferSize: nat, k: nat)
    requires AreGroups(a, bufferSize, true) && AreGroups(b, bufferSize, true) && Flatten(a) == Flatten(b)
    requires k <= |a| && k <= |b| && a[..k] == b[..k]
    ensures a == b
    decreases |a| - k
  {
    hide Flatten, AreGroups;
    if k == |a| {
      NoMoreGroups(a, b, bufferSize);
    } else if k == |b| {
      NoMoreGroups(b, a, bufferSize);
    } else {
      if |a[k]| <= |b[k]| {
        NextGroupSame(a, b, bufferSize, k);
      } else {
        NextGroupSame(b, a, bufferSize, k);
      }
      assert a[..k + 1] == a[..k] + [a[k]] && b[..k + 1] == b[..k] + [b[k]];
      SameFrom(a, b, bufferSize, k + 1);
    }
  }

  lemma GroupAt(groups: seq<seq<string>>, bufferSize: nat, done: bool, k: nat)
    requires AreGroups(groups, bufferSize, done) && k < |groups|
    ensures IsGroup(groups[k], |Flatten(groups[..k])|, bufferSize, done && k == |groups| - 1) && groups[k] != []
  {
    hide Flatten;
  }

  lemma NoMoreGroups(a: seq<seq<string>>, b: seq<seq<string>>, bufferSize: nat)
    requires AreGroups(b, bufferSize, true) && Flatten(a) == Flatten(b) && |a| <= |b| && a == b[..|a|]
    ensures a == b
  {
    hide *;
    if |a| < |b| {
      GroupAt(b, bufferSize, true, |a|);
      FlattenNext(b, |a|);
      var rest := FlattenRest(b, |a| + 1);
    } else {
      assert b[..|a|] == b;
    }
  }

  lemma NextGroupSame(a: seq<seq<string>>, b: seq<seq<string>>, bufferSize: nat, k: nat)
    requires AreGroups(a, bufferSize, true) && AreGroups(b, bufferSize, true) && Flatten(a) == Flatten(b)
    requires k < |a| && k < |b| && a[..k] == b[..k] && |a[k]| <= |b[k]|
    ensures a[k] == b[k]
  {
    hide *;
    GroupAt(a, bufferSize, true, k);
    GroupAt(b, bufferSize, true, k);
    FlattenNext(a, k);
    FlattenNext(b, k);
    var restA := FlattenRest(a, k + 1);
    var restB := FlattenRest(b, k + 1);
    if k == |a| - 1 {
      assert a[..k + 1] == a;
    }
    GroupsAgree(Flatten(a[..k]), a[k], restA, b[k], restB, bufferSize, k == |a| - 1, k == |b| - 1);
  }

  lemma GroupsAgree(before: seq<string>, x: seq<string>, restX: seq<string>, y: seq<string>, restY: seq<string>,
                    bufferSize: nat, lastX: bool, lastY: bool)
    requires before + x + restX == before + y + restY && |x| <= |y| && (lastX ==> restX == [])
    requires IsGroup(x, |before|, bufferSize, lastX) && IsGroup(y, |before|, bufferSize, lastY)
    ensures x == y
  {
    hide *;
    SameStart(before, x, restX, y, restY);
    if |x| < |y| {
      SameGroup(x, y, |before|, bufferSize);
      FilledTooEarly(y, |before|, bufferSize, lastY);
    }
  }

  lemma FilledTooEarly(group: seq<string>, first: nat, bufferSize: nat, last: bool)
    requires IsGroup(group, first, bufferSize, last)
    ensures |group| > 1 ==> !Fills(|Numbered(group[..|group| - 1], first)|, bufferSize)
  {
  }

  lemma SameStart(before: seq<string>, x: seq<string>, restX: seq<string>, y: seq<string>, restY: seq<string>)
    requires before + x + restX == before + y + restY && |x| <= |y|
    ensures y[..|x|] == x && (|x| == |y| ==> x == y) && |restX| == |y| - |x| + |restY|
  {
    var all := before + x + restX;
    assert all[|before|..|before| + |x|] == x;
    assert all == before + y + restY && all[|before|..|before| + |x|] == y[..|x|];
  }

  // --------------------------------------------------------------- an unterminated last line

  /** The text up to its last delimiter. */
  function WholeLines(text: string): string {
    text[..Lines.LastStart(text, '\n', 0, |text|)]
  }

  /** Lines with their delimiters, of which the last one may have none. */
  ghost predicate ArePieces(lines: seq<string>) {
    lines == [] || (AreLines(lines[..|lines| - 1]) && IsPiece(lines[|lines| - 1]))
  }

  ghost predicate IsPiece(line: string) {
    line != "" && '\n' !in line[..|line| - 1]
  }

  lemma WholeLinesIff(text: string)
    ensures WholeLines(text) == text <==> Lines.Delimited(text, '\n')
  {
  }

  lemma {:induction false} LastStartAfter(a: string, t: string)
    requires Lines.Delimited(a, '\n') && '\n' !in t
    ensures WholeLines(a + t) == a
    decreases |t|
  {
    if t == "" {
      assert a + t == a;
    } else {
      var n := |t| - 1;
      LastStartAfter(a, t[..n]);
      LastStartSame(a + t, a + t[..n], |a| + n);
    }
  }

  lemma {:induction false} LastStartSame(s: string, r: string, end: nat)
    requires end <= |s| && end <= |r| && s[..end] == r[..end]
    ensures Lines.LastStart(s, '\n', 0, end) == Lines.LastStart(r, '\n', 0, end)
  {
    if end > 0 {
      assert s[end - 1] == s[..end][end - 1] && r[end - 1] == r[..end][end - 1];
      assert s[..end - 1] == s[..end][..end - 1] && r[..end - 1] == r[..end][..end - 1];
      LastStartSame(s, r, end - 1);
    }
  }

  lemma {:induction false} LastStartBounds(s: string, end: nat)
    requires end <= |s|
    ensures var p := Lines.LastStart(s, '\n', 0, end);
      (p == 0 || s[p - 1] == '\n') && forall i :: p <= i < end ==> s[i] != '\n'
  {
    if end > 0 && s[end - 1] != '\n' {
      LastStartBounds(s, end - 1);
    }
  }

  /** Whole lines in front of a text stay in front of its whole lines. */
  lemma WholeLinesAppend(a: string, b: string)
    requires Lines.Delimited(a, '\n')
    ensures WholeLines(a + b) == a + WholeLines(b)
  {
    hide Lines.LastStart;
    LastStartBounds(b, |b|);
    var n := Lines.LastStart(b, '\n', 0, |b|);
    assert b == b[..n] + b[n..] && a + b == (a + b[..n]) + b[n..];
    LastStartAfter(a + b[..n], b[n..]);
  }

  lemma {:induction false} LinesAreDelimited(lines: seq<string>)
    requires AreLines(lines)
    ensures Lines.Delimited(Concat(lines), '\n')
  {
    if lines != [] {
      assert IsLine(lines[0]);
      LinesAreDelimited(lines[1..]);
    }
  }

  lemma {:induction false} NumberedIsDelimited(lines: seq<string>, first: nat)
    requires AreLines(lines)
    ensures Lines.Delimited(Numbered(lines, first), '\n')
  {
    hide RequestId;
    if lines != [] {
      assert IsLine(lines[0]);
      NumberedIsDelimited(lines[1..], first + 1);
    }
  }

  /** The server does not count a row without a delimiter, so it does not answer it. */
  lemma UnterminatedIsDropped(a: string, t: string)
    requires Lines.Delimited(a, '\n') && '\n' !in t
    ensures EchoReply(a + t) == EchoReply(a)
  {
    hide Rows, Terminated, EchoAll;
    RowCount(a + t, '\n', 0);
    RowCount(a, '\n', 0);
    RowsBefore(a, t);
    assert Rows(a, '\n', 0)[..|Rows(a, '\n', 0)|] == Rows(a, '\n', 0);
  }

  lemma {:induction false} RowsBefore(a: string, t: string)
    requires Lines.Delimited(a, '\n') && '\n' !in t
    ensures Terminated(a + t, '\n') == Terminated(a, '\n') == |Rows(a, '\n', 0)| <= |Rows(a + t, '\n', 0)|
    ensures Rows(a + t, '\n', 0)[..Terminated(a, '\n')] == Rows(a, '\n', 0)
    decreases |a|
  {
    hide Rows, Terminated, FindChar;
    if a == "" {
      NoRows(a, '\n', 0);
      assert a + t == t;
      NoneTerminated(t);
    } else {
      Lines.DelimitedEnds(a, '\n', 0);
      Lines.LineEndBound(a, '\n', 0);
      var n := Lines.LineEnd(a, '\n', 0);
      FindCharFirst(a, '\n', 0);
      var line, rest := a[..n], a[n + 1..];
      RowsBefore(rest, t);
      RowsPrepend(line, rest, '\n', 0);
      RowsPrepend(line, rest + t, '\n', 0);
      assert a == line + ['\n'] + rest && a + t == line + ['\n'] + (rest + t);
    }
  }

  lemma NoneTerminated(t: string)
    requires '\n' !in t
    ensures Terminated(t, '\n') == 0
  {
    hide Terminated, FindChar;
    if t == "" {
      NoRows(t, '\n', 0);
    } else {
      assert t[0..] == t;
      FindCharFirst(t, '\n', 0);
      LastRow(t, '\n', 0, 0);
    }
  }

  /** The server's reply to numbered lines, the last of which may be unterminated. */
  lemma EchoesPieces(lines: seq<string>, first: nat)
    requires ArePieces(lines)
    ensures EchoReply(Numbered(lines, first)) == WholeLines(Concat(lines))
  {
    hide EchoReply, Numbered, Concat, WholeLines, RequestId, Lines.Delimited;
    if AreLines(lines) {
      EchoesLines(lines, first);
      LinesAreDelimited(lines);
      WholeLinesIff(Concat(lines));
    } else {
      var n := |lines| - 1;
      var whole, last := lines[..n], lines[n];
      assert lines == whole + [last];
      Unterminated(whole, last);
      NumberedAppend(whole, [last], first);
      NumberedOne(last, first + n);
      NumberedIsDelimited(whole, first);
      IdHasNoNewline(first + n);
      UnterminatedIsDropped(Numbered(whole, first), RequestId(first + n) + last);
      EchoesLines(whole, first);
      ConcatAppend(whole, [last]);
      ConcatOne(last);
      LinesAreDelimited(whole);
      LastStartAfter(Concat(whole), last);
    }
  }

  lemma Unterminated(whole: seq<string>, last: string)
    requires AreLines(whole) && IsPiece(last) && !AreLines(whole + [last])
    ensures '\n' !in last
  {
    assert !IsLine(last);
    assert last == last[..|last| - 1] + [last[|last| - 1]];
  }

  lemma PiecesPrefix(a: seq<string>, b: seq<string>)
    requires ArePieces(a + b)
    ensures ArePieces(a) && ArePieces(b) && (b != [] ==> AreLines(a))
  {
    hide IsLine, IsPiece;
    var all := a + b;
    if b != [] {
      assert forall i :: 0 <= i < |a| ==> all[..|all| - 1][i] == a[i];
      assert forall i :: 0 <= i < |b| - 1 ==> all[..|all| - 1][|a| + i] == b[i];
      LinesArePieces(a);
    } else {
      assert all == a;
    }
  }

  lemma LinesArePieces(lines: seq<string>)
    requires AreLines(lines)
    ensures ArePieces(lines)
  {
    if lines != [] {
      assert IsLine(lines[|lines| - 1]);
    }
  }

  // ------------------------------------------------------------------------- end to end

  /** The lines of a source, read with their delimiters. */
  ghost function SourceLines(source: string, capacity: nat): Lines.Reading {
    Lines.Expected(source, '\n', 1, capacity, 0, 0)
  }

  lemma {:induction false} ExpectedArePieces(source: string, capacity: nat, window: nat, pos: nat)
    requires window <= pos <= Lines.WindowEnd(source, capacity, window)
    ensures ArePieces(Lines.Expected(source, '\n', 1, capacity, window, pos).lines)
    decreases |source| - pos
  {
    hide *;
    Lines.MovedBound(source, '\n', capacity, window, pos);
    Lines.AheadIs(source, '\n', 1, capacity, window, pos);
    NoPieces();
    if pos < |source| && !Lines.IsStuck(source, '\n', capacity, window, pos) {
      Lines.LineEndBound(source, '\n', pos);
      var next := Lines.LineEnd(source, '\n', pos);
      var moved := Lines.Moved(source, '\n', capacity, window, pos);
      var end := Lines.WindowEnd(source, capacity, moved);
      if next < end {
        OneLine(source, pos, next);
        ExpectedArePieces(source, capacity, moved, next + 1);
        PiecesPrepend(source[pos..next + 1], Lines.Expected(source, '\n', 1, capacity, moved, next + 1));
      } else {
        Lines.ChunkIsStuck(source, '\n', 1, capacity, moved, pos);
        OnePiece(source, pos, end);
        PieceOnly(source[pos..end], Lines.Expected(source, '\n', 1, capacity, moved, end));
      }
    }
  }

  lemma NoPieces()
    ensures ArePieces([])
  {
  }

  lemma PiecesPrepend(line: string, r: Lines.Reading)
    requires IsLine(line) && ArePieces(r.lines)
    ensures ArePieces(Lines.Prepend(line, r).lines)
  {
    hide IsLine, IsPiece;
    var all := [line] + r.lines;
    if r.lines == [] {
      assert AreLines([line]);
      LinesArePieces([line]);
    } else {
      assert all[..|all| - 1] == [line] + r.lines[..|r.lines| - 1];
    }
  }

  lemma PieceOnly(line: string, r: Lines.Reading)
    requires IsPiece(line) && r.lines == []
    ensures ArePieces(Lines.Prepend(line, r).lines)
  {
    hide IsPiece;
    assert [line] + r.lines == [line] && [line][..0] == [];
  }

  lemma OneLine(source: string, pos: nat, next: nat)
    requires pos <= next < |source| && Lines.LineEnd(source, '\n', pos) == next
    ensures IsLine(source[pos..next + 1])
  {
    Lines.LineEndBound(source, '\n', pos);
    FindCharFirst(source, '\n', pos);
    var line := source[pos..next + 1];
    assert line[..|line| - 1] == source[pos..next];
  }

  lemma OnePiece(source: string, pos: nat, end: nat)
    requires pos < end <= |source| && end <= Lines.LineEnd(source, '\n', pos)
    ensures IsPiece(source[pos..end])
  {
    var piece := source[pos..end];
    forall i | 0 <= i < |piece| ensures piece[i] != '\n' {
      Lines.NotDelimiter(source, '\n', pos, pos + i);
    }
  }

  /** Such a source becomes a task: it is not empty and read to its end, no delimiter is invented, and
  there are enough ids. */
  ghost predicate BecomesTask(source: string, garbage: string) {
    && source != "" && Lines.IsReadWhole(source, '\n', |garbage|) && !Lines.GainsDelimiter(source, '\n', garbage)
    && |Rows(source, '\n', 1)| <= 10000
  }

  /** `TaskBuilder::run`, once over a source. */
  method BuildTask(source: string, garbage: string, bufferSize: nat, stale: seq<string>) returns (builder: TaskBuilder, r: Status)
    requires bufferSize < 0x1_0000_0000_0000_0000
    ensures builder.Valid() && fresh(builder)
    ensures r == TaskDone <==> BecomesTask(source, garbage)
    ensures builder.bufferSize == bufferSize
    ensures r == TaskDone ==> builder.status == TaskDone && Flatten(builder.groups) == Rows(source, '\n', 1)
                              && AreGroups(builder.groups, bufferSize, true)
    ensures var reading := SourceLines(source, |garbage|);
      var many := |reading.lines| > TASK_MAX_SIZE;
      && (r == Undefined <==> many || (Lines.IsReadWhole(source, '\n', |garbage|) && Lines.GainsDelimiter(source, '\n', garbage)))
      && (r == NoStatus <==> !many && (reading.ending == Lines.AtEmptyLine || source == ""))
      && (r == Error <==> !many && reading.ending == Lines.BufferTooSmall)
  {
    hide Lines.Expected, Lines.StaleAhead, Lines.IsReadWhole, Lines.GainsDelimiter, Rows, FindChar, AreGroups;
    builder := new TaskBuilder(bufferSize, stale);
    var lines := new Lines.StringLines(source, garbage, '\n', true);
    ghost var reading := SourceLines(source, |garbage|);
    ghost var all := reading.lines;
    ghost var gains := lines.WillGain();
    SourceCases(source, garbage);
    assert Flatten(builder.groups) == [] && [] + all == all;
    r := builder.CreateSubtask(lines, all);
    while r == SubtaskDone
      invariant fresh(builder) && fresh(lines) && fresh(lines.buffer) && lines.source == source
      invariant builder.Valid()
      invariant r == SubtaskDone ==>
        && builder.status == SubtaskDone && Reads(lines, builder.groups, all)
        && lines.Ahead().ending == reading.ending && lines.WillGain() == gains
      invariant r == TaskDone ==> builder.status == TaskDone && Flatten(builder.groups) == all
                                  && reading.ending == Lines.Finished && source != ""
      invariant r == NoStatus ==> reading.ending == Lines.AtEmptyLine || source == ""
      invariant r == Error ==> reading.ending == Lines.BufferTooSmall
      invariant r != SubtaskDone ==> (r == Undefined <==> |all| > TASK_MAX_SIZE || gains)
      decreases |source| - lines.pos, r == SubtaskDone
    {
      r := builder.CreateSubtask(lines, all);
    }
  }

  /** What is known of a source before it is read. */
  lemma SourceCases(source: string, garbage: string)
    ensures var reading := SourceLines(source, |garbage|);
      var whole := Lines.IsReadWhole(source, '\n', |garbage|);
      && (reading.ending == Lines.Finished <==> whole)
      && (whole ==> reading.lines == Rows(source, '\n', 1))
      && (Lines.StaleAhead(source, '\n', garbage, 0, 0, 0) <==> whole && Lines.GainsDelimiter(source, '\n', garbage))
      && (source == "" ==> reading == Lines.Reading([], Lines.Finished) && !Lines.GainsDelimiter(source, '\n', garbage))
  {
    hide Lines.IsReadWhole, Rows, Lines.StaleAhead;
    Lines.ReadsWholeIff(source, '\n', 1, |garbage|);
    Lines.StaleIff(source, '\n', garbage);
  }

  /** Any source, any buffer size, any leftovers of earlier batches: which sources become a task, and
  then what the client gets back is the source up to its last delimiter, byte for byte. */
  method EchoSource(source: string, garbage: string, bufferSize: nat,
                    staleSubtasks: seq<string>, staleRequests: seq<string>, staleResponse: seq<string>)
    returns (output: string, r: Status)
    requires bufferSize < 0x1_0000_0000_0000_0000
    ensures r == TaskDone <==> BecomesTask(source, garbage)
    ensures r == TaskDone ==> output == WholeLines(source) && (output == source <==> Lines.Delimited(source, '\n'))
  {
    hide *;
    var builder;
    builder, r := BuildTask(source, garbage, bufferSize, staleSubtasks);
    output := "";
    if r == TaskDone {
      TaskText(source, garbage);
      output := EchoTask(builder, staleRequests, staleResponse);
      WholeLinesIff(source);
    }
  }

  /** The replies to the subtasks of a task, one after the other. */
  method EchoTask(builder: TaskBuilder, staleRequests: seq<string>, staleResponse: seq<string>) returns (output: string)
    requires builder.Valid() && builder.status == TaskDone && ArePieces(Flatten(builder.groups))
    ensures output == WholeLines(Concat(Flatten(builder.groups)))
  {
    hide CutInto, AreGroups, Concat, EchoReply, Flatten, WholeLines, ArePieces;
    output := "";
    var requests, response := staleRequests, staleResponse;
    var n, subtasks := builder.subtaskIndex + 1, builder.subtasks;  // getTask
    ghost var groups := builder.groups;
    NothingEchoed(groups);
    for k := 0 to n
      invariant output == WholeLines(Concat(Flatten(groups[..k])))
    {
      var reply;
      reply, requests, response := Serve(subtasks[k], requests, response);
      GroupEchoed(subtasks[..n], groups, k);
      output := output + reply;
    }
    assert groups[..n] == groups;
  }

  lemma NothingEchoed(groups: seq<seq<string>>)
    ensures WholeLines(Concat(Flatten(groups[..0]))) == ""
  {
    NothingWhole();
    assert Flatten(groups[..0]) == [];
  }

  /** The lines of a task make up the source. */
  lemma TaskText(source: string, garbage: string)
    requires BecomesTask(source, garbage)
    ensures ArePieces(Rows(source, '\n', 1)) && Concat(Rows(source, '\n', 1)) == source
  {
    hide Lines.IsReadWhole, Lines.Expected, Rows, Concat, ArePieces;
    ExpectedArePieces(source, |garbage|, 0, 0);
    SourceCases(source, garbage);
    RowsMakeText(source, '\n');
  }

  lemma {:induction false} FlattenRest(groups: seq<seq<string>>, k: nat) returns (rest: seq<string>)
    requires k <= |groups|
    ensures Flatten(groups) == Flatten(groups[..k]) + rest
    decreases |groups| - k
  {
    hide Flatten;
    if k == |groups| {
      rest := [];
      assert groups[..k] == groups;
    } else {
      rest := FlattenRest(groups, k + 1);
      FlattenNext(groups, k);
      rest := groups[k] + rest;
    }
  }

  lemma GroupEchoed(subtasks: seq<string>, groups: seq<seq<string>>, k: nat)
    requires CutInto(subtasks, groups, 0) && k < |groups| && ArePieces(Flatten(groups))
    ensures WholeLines(Concat(Flatten(groups[..k]))) + EchoReply(subtasks[k]) == WholeLines(Concat(Flatten(groups[..k + 1])))
  {
    hide Concat, EchoReply, Numbered, Flatten, AreLines, ArePieces, WholeLines, Lines.Delimited;
    var rest := FlattenRest(groups, k + 1);
    PiecesPrefix(Flatten(groups[..k + 1]), rest);
    FlattenNext(groups, k);
    var before, group := Flatten(groups[..k]), groups[k];
    PiecesPrefix(before, group);
    EchoesPieces(group, 0 + |before|);
    ConcatAppend(before, group);
    if group != [] {
      LinesAreDelimited(before);
      WholeLinesAppend(Concat(before), Concat(group));
      WholeLinesIff(Concat(before));
    } else {
      NothingWhole();
      assert before + group == before;
    }
  }

  lemma NothingWhole()
    ensures WholeLines(Concat([])) == ""
  {
    ConcatNone();
  }
}
