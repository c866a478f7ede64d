/** The line reader with a sliding buffer (common/Lines.cpp:11-43, common/StringLines.cpp:7-28). */
module Lines {
  import opened Options
  import opened Utility

  // --------------------------------------------------------------------- specification

  datatype Ending =
    | Finished         // the whole source was read
    | AtEmptyLine      // an empty line reads as the end of the input
    | BufferTooSmall   // "The buffer is too small."

  datatype Reading = Reading(lines: seq<string>, ending: Ending)

  /** Where the line at pos ends: at its delimiter, or at the end of the source. */
  function LineEnd(source: string, delim: char, pos: nat): nat {
    var r := FindChar(source, delim, pos);
    if r.Some? then r.value else |source|
  }

  /** Where the buffer ends when it starts at `window`. */
  function WindowEnd(source: string, capacity: nat, window: nat): nat {
    if window + capacity < |source| then window + capacity else |source|
  }

  /** The line at pos is not complete in the buffer, and there is more input. */
  predicate Incomplete(source: string, delim: char, capacity: nat, window: nat, pos: nat) {
    LineEnd(source, delim, pos) >= WindowEnd(source, capacity, window) && WindowEnd(source, capacity, window) < |source|
  }

  /** It begins or ends the buffer, so the buffer cannot move to it. */
  predicate IsStuck(source: string, delim: char, capacity: nat, window: nat, pos: nat) {
    Incomplete(source, delim, capacity, window, pos) && (pos == window || pos == WindowEnd(source, capacity, window))
  }

  /** Where the buffer starts when the line at pos is looked up. */
  function Moved(source: string, delim: char, capacity: nat, window: nat, pos: nat): nat {
    if Incomplete(source, delim, capacity, window, pos) then pos else window
  }

  /** What repeated calls return, from position pos, with the buffer starting at `window`: lines
  up to the end, or up to an empty line, or until the buffer cannot move. The buffer moves to an
  incomplete line, unless that line begins or ends the buffer. What a moved buffer holds without a
  delimiter is taken for a line. */
  ghost function Expected(source: string, delim: char, keep: nat, capacity: nat, window: nat, pos: nat): Reading
    requires keep <= 1 && window <= pos <= WindowEnd(source, capacity, window)
    decreases |source| - pos
  {
    if pos == |source| then Reading([], Finished)
    else if IsStuck(source, delim, capacity, window, pos) then Reading([], BufferTooSmall)
    else
      var next := LineEnd(source, delim, pos);
      LineEndBound(source, delim, pos);
      var moved := Moved(source, delim, capacity, window, pos);
      var end := WindowEnd(source, capacity, moved);
      if next == pos then Reading([], AtEmptyLine)
      else
        var (cut, after) := if next < end then (next + keep, next + 1) else (end, end);
        var rest := Expected(source, delim, keep, capacity, moved, after);
        Reading([source[pos..cut]] + rest.lines, rest.ending)
  }

  lemma LineEndBound(source: string, delim: char, pos: nat)
    requires pos <= |source|
    ensures pos <= LineEnd(source, delim, pos) <= |source|
    ensures LineEnd(source, delim, pos) < |source| ==>
      source[LineEnd(source, delim, pos)] == delim && FindChar(source, delim, pos) == Some(LineEnd(source, delim, pos))
    ensures LineEnd(source, delim, pos) == |source| ==> FindChar(source, delim, pos) == None
  {
  }

  /** One step of the specification. */
  lemma StepAhead(source: string, delim: char, keep: nat, capacity: nat, window: nat, pos: nat)
    requires keep <= 1 && window <= pos <= WindowEnd(source, capacity, window) && pos < |source|
    requires !IsStuck(source, delim, capacity, window, pos)
    ensures var next := LineEnd(source, delim, pos);
      var moved := Moved(source, delim, capacity, window, pos);
      var end := WindowEnd(source, capacity, moved);
      pos <= next <= |source| && pos <= end
      && Expected(source, delim, keep, capacity, window, pos)
         == if next == pos then Reading([], AtEmptyLine)
            else if next < end then Prepend(source[pos..next + keep], Expected(source, delim, keep, capacity, moved, next + 1))
            else Prepend(source[pos..end], Expected(source, delim, keep, capacity, moved, end))
  {
    hide FindChar;
    LineEndBound(source, delim, pos);
  }

  ghost function Prepend(line: string, r: Reading): Reading {
    Reading([line] + r.lines, r.ending)
  }

  lemma Stuck(source: string, delim: char, keep: nat, capacity: nat, window: nat, pos: nat)
    requires keep <= 1 && window <= pos <= WindowEnd(source, capacity, window)
    requires IsStuck(source, delim, capacity, window, pos)
    ensures Expected(source, delim, keep, capacity, window, pos) == Reading([], BufferTooSmall)
  {
    hide FindChar;
  }

  /** Every line from `from` on fits the buffer, with its delimiter if it has one. */
  ghost predicate FitsFrom(source: string, delim: char, capacity: nat, from: nat) {
    forall pos {:trigger LineEnd(source, delim, pos)} :: from <= pos < |source| ==>
      LineEnd(source, delim, pos) < pos + capacity || LineEnd(source, delim, pos) == |source| <= pos + capacity
  }

  ghost predicate Fits(source: string, delim: char, capacity: nat) {
    FitsFrom(source, delim, capacity, 0)
  }

  lemma FitsAt(source: string, delim: char, capacity: nat, pos: nat)
    requires Fits(source, delim, capacity) && pos < |source|
    ensures LineEnd(source, delim, pos) < pos + capacity || (LineEnd(source, delim, pos) == |source| <= pos + capacity)
  {
  }

  /** The lines are those of the whole text split at once: all of them if reading finishes, and
  otherwise the first ones. */
  lemma {:induction false} ReadingIsSplit(source: string, delim: char, keep: nat, capacity: nat, window: nat, pos: nat)
    requires Fits(source, delim, capacity) && keep <= 1 && window <= pos <= WindowEnd(source, capacity, window)
    ensures var r := Expected(source, delim, keep, capacity, window, pos);
      r.lines <= Rows(source[pos..], delim, keep)
      && (r.ending == Finished ==> r.lines == Rows(source[pos..], delim, keep))
    decreases |source| - pos
  {
    hide FindChar, Rows, Fits, Expected, Terminated, LineEnd;
    if pos == |source| {
      NoRows(source[pos..], delim, keep);
      NothingLeft(source, delim, keep, capacity, window);
    } else if IsStuck(source, delim, capacity, window, pos) {
      Stuck(source, delim, keep, capacity, window, pos);
    } else {
      FitsAt(source, delim, capacity, pos);
      LineEndBound(source, delim, pos);
      StepAhead(source, delim, keep, capacity, window, pos);
      var next := LineEnd(source, delim, pos);
      var moved := Moved(source, delim, capacity, window, pos);
      var end := WindowEnd(source, capacity, moved);
      if next == pos {
      } else if next < end {
        ReadingIsSplit(source, delim, keep, capacity, moved, next + 1);
        NextRow(source, delim, keep, pos, next);
      } else {
        ReadingIsSplit(source, delim, keep, capacity, moved, end);
        LastRow(source, delim, keep, pos);
        NoRows(source[end..], delim, keep);
        assert end == |source| && source[pos..end] == source[pos..];
      }
    }
  }

  lemma NothingLeft(source: string, delim: char, keep: nat, capacity: nat, window: nat)
    requires keep <= 1 && window <= |source| == WindowEnd(source, capacity, window)
    ensures Expected(source, delim, keep, capacity, window, |source|) == Reading([], Finished)
  {
  }

  /** The last line ends with the delimiter too. */
  ghost predicate Delimited(source: string, delim: char) {
    source == "" || source[|source| - 1] == delim
  }

  lemma DelimitedEnds(source: string, delim: char, pos: nat)
    requires Delimited(source, delim) && pos < |source|
    ensures LineEnd(source, delim, pos) < |source|
  {
    LineEndBound(source, delim, pos);
    FindCharFirst(source, delim, pos);
  }

  /** No line from `from` on is empty: no delimiter at the beginning or after a delimiter. */
  ghost predicate NoEmptyLineFrom(source: string, delim: char, from: nat) {
    forall pos :: from <= pos < |source| && source[pos] == delim ==> pos > 0 && source[pos - 1] != delim
  }

  ghost predicate NoEmptyLine(source: string, delim: char) {
    NoEmptyLineFrom(source, delim, 0)
  }

  /** A line starts at pos. */
  predicate IsLineStart(source: string, delim: char, pos: nat) {
    pos <= |source| && (pos == 0 || pos == |source| || source[pos - 1] == delim)
  }

  lemma NotDelimiter(source: string, delim: char, pos: nat, i: nat)
    requires pos <= i < LineEnd(source, delim, pos) && i < |source|
    ensures source[i] != delim
  {
    FindCharFirst(source, delim, pos);
  }

  /** Every position inside a line sees the same end. */
  lemma {:induction false} SameLineEnd(source: string, delim: char, pos: nat, i: nat)
    requires pos <= i <= LineEnd(source, delim, pos) && i < |source|
    ensures LineEnd(source, delim, i) == LineEnd(source, delim, pos)
    decreases i - pos
  {
    if pos < i {
      SameLineEnd(source, delim, pos + 1, i);
    }
  }

  /** Reading finishes only if every line fits and none is empty. */
  lemma {:induction false} FinishedMeans(source: string, delim: char, keep: nat, capacity: nat, window: nat, pos: nat)
    requires keep <= 1 && window <= pos <= WindowEnd(source, capacity, window) && IsLineStart(source, delim, pos)
    requires Expected(source, delim, keep, capacity, window, pos).ending == Finished
    ensures FitsFrom(source, delim, capacity, pos) && NoEmptyLineFrom(source, delim, pos)
    decreases |source| - pos
  {
    hide *;
    AheadIs(source, delim, keep, capacity, window, pos);
    MovedBound(source, delim, capacity, window, pos);
    if pos == |source| {
      NothingFrom(source, delim, capacity);
    } else {
      var next := LineEnd(source, delim, pos);
      var moved := Moved(source, delim, capacity, window, pos);
      var end := WindowEnd(source, capacity, moved);
      LineEndBound(source, delim, pos);
      PrependEnding(source[pos..if next < end then next + keep else end],
                    Expected(source, delim, keep, capacity, moved, if next < end then next + 1 else end));
      if next >= end {
        ChunkIsStuck(source, delim, keep, capacity, moved, pos);
        LastLineMeans(source, delim, capacity, pos);
      } else {
        AfterDelimiter(source, delim, next);
        FinishedMeans(source, delim, keep, capacity, moved, next + 1);
        LineMeans(source, delim, capacity, pos);
      }
    }
  }

  lemma NothingFrom(source: string, delim: char, capacity: nat)
    ensures FitsFrom(source, delim, capacity, |source|) && NoEmptyLineFrom(source, delim, |source|)
  {
  }

  lemma PrependEnding(line: string, r: Reading)
    ensures Prepend(line, r).ending == r.ending
  {
  }

  lemma AfterDelimiter(source: string, delim: char, pos: nat)
    requires pos < |source| && source[pos] == delim
    ensures IsLineStart(source, delim, pos + 1)
  {
  }

  lemma MovedBound(source: string, delim: char, capacity: nat, window: nat, pos: nat)
    requires window <= pos <= WindowEnd(source, capacity, window)
    ensures window <= Moved(source, delim, capacity, window, pos) <= pos <= WindowEnd(source, capacity, window) <= |source|
    ensures WindowEnd(source, capacity, Moved(source, delim, capacity, window, pos)) <= |source|
    ensures WindowEnd(source, capacity, Moved(source, delim, capacity, window, pos)) <= pos + capacity
    ensures pos <= WindowEnd(source, capacity, Moved(source, delim, capacity, window, pos))
    ensures !IsStuck(source, delim, capacity, window, pos) && pos < |source| ==>
      pos < WindowEnd(source, capacity, Moved(source, delim, capacity, window, pos))
  {
    hide FindChar;
    LineEndBound(source, delim, pos);
  }

  /** What is taken for a line without its delimiter, while there is more input, is the last thing read. */
  lemma ChunkIsStuck(source: string, delim: char, keep: nat, capacity: nat, moved: nat, pos: nat)
    requires keep <= 1 && moved <= pos <= WindowEnd(source, capacity, moved) <= LineEnd(source, delim, pos) <= |source|
    ensures var end := WindowEnd(source, capacity, moved);
      moved <= end && (end < |source| ==> Expected(source, delim, keep, capacity, moved, end) == Reading([], BufferTooSmall))
    ensures var end := WindowEnd(source, capacity, moved);
      end == |source| ==> Expected(source, delim, keep, capacity, moved, end) == Reading([], Finished)
  {
    hide Expected, FindChar, LineEnd;
    var end := WindowEnd(source, capacity, moved);
    LineEndBound(source, delim, end);
    if end < |source| {
      Stuck(source, delim, keep, capacity, moved, end);
    } else {
      NothingLeft(source, delim, keep, capacity, moved);
    }
  }

  lemma LineMeans(source: string, delim: char, capacity: nat, pos: nat)
    requires pos < LineEnd(source, delim, pos) < |source| && LineEnd(source, delim, pos) < pos + capacity
    requires FitsFrom(source, delim, capacity, LineEnd(source, delim, pos) + 1)
    requires NoEmptyLineFrom(source, delim, LineEnd(source, delim, pos) + 1)
    ensures FitsFrom(source, delim, capacity, pos) && NoEmptyLineFrom(source, delim, pos)
  {
    hide LineEnd;
    var next := LineEnd(source, delim, pos);
    forall i | pos <= i < |source|
      ensures LineEnd(source, delim, i) < i + capacity || LineEnd(source, delim, i) == |source| <= i + capacity
    {
      if i <= next {
        SameLineEnd(source, delim, pos, i);
      }
    }
    forall i | pos <= i < |source| && source[i] == delim ensures i > 0 && source[i - 1] != delim {
      if i < next {
        NotDelimiter(source, delim, pos, i);
      } else if i == next {
        NotDelimiter(source, delim, pos, i - 1);
      }
    }
  }

  lemma LastLineMeans(source: string, delim: char, capacity: nat, pos: nat)
    requires pos < |source| == LineEnd(source, delim, pos) && |source| <= pos + capacity
    ensures FitsFrom(source, delim, capacity, pos) && NoEmptyLineFrom(source, delim, pos)
  {
    hide LineEnd;
    forall i | pos <= i < |source|
      ensures (LineEnd(source, delim, i) < i + capacity || LineEnd(source, delim, i) == |source| <= i + capacity)
              && source[i] != delim
    {
      SameLineEnd(source, delim, pos, i);
      NotDelimiter(source, delim, pos, i);
    }
  }

  /** For lines that fit, only an empty line stops reading early without an exception. */
  lemma {:induction false} EmptyLineOnly(source: string, delim: char, keep: nat, capacity: nat, window: nat, pos: nat)
    requires Fits(source, delim, capacity) && keep <= 1 && window <= pos <= WindowEnd(source, capacity, window)
    requires NoEmptyLine(source, delim) && IsLineStart(source, delim, pos)
    ensures Expected(source, delim, keep, capacity, window, pos).ending != AtEmptyLine
    decreases |source| - pos
  {
    hide FindChar, Fits, Expected, LineEnd;
    if pos == |source| {
      NothingLeft(source, delim, keep, capacity, window);
    } else if IsStuck(source, delim, capacity, window, pos) {
      Stuck(source, delim, keep, capacity, window, pos);
    } else {
      FitsAt(source, delim, capacity, pos);
      LineEndBound(source, delim, pos);
      StepAhead(source, delim, keep, capacity, window, pos);
      var next := LineEnd(source, delim, pos);
      var moved := Moved(source, delim, capacity, window, pos);
      var end := WindowEnd(source, capacity, moved);
      EmptyLineOnly(source, delim, keep, capacity, moved, if next < end then next + 1 else end);
    }
  }

  /** For lines that fit, a reading that does not throw finishes if and only if no line is empty. */
  lemma FinishesIffNoEmptyLine(source: string, delim: char, keep: nat, capacity: nat)
    requires Fits(source, delim, capacity) && keep <= 1
    ensures var r := Expected(source, delim, keep, capacity, 0, 0);
      r.ending != BufferTooSmall ==> (r.ending == Finished <==> NoEmptyLine(source, delim))
  {
    hide Expected, FitsFrom, NoEmptyLineFrom;
    if Expected(source, delim, keep, capacity, 0, 0).ending == Finished {
      FinishedMeans(source, delim, keep, capacity, 0, 0);
    }
    if NoEmptyLine(source, delim) {
      EmptyLineOnly(source, delim, keep, capacity, 0, 0);
    }
  }

  /** For lines that fit, a call throws exactly when the next line starts where the buffer ends, with
  input left. */
  lemma ThrowsIff(source: string, delim: char, keep: nat, capacity: nat, window: nat, pos: nat)
    requires Fits(source, delim, capacity) && keep <= 1 && window <= pos <= WindowEnd(source, capacity, window)
    ensures Expected(source, delim, keep, capacity, window, pos) == Reading([], BufferTooSmall)
            <==> pos == WindowEnd(source, capacity, window) < |source|
  {
    hide FindChar, Fits, Expected, LineEnd;
    if pos == |source| {
      NothingLeft(source, delim, keep, capacity, window);
    } else {
      FitsAt(source, delim, capacity, pos);
      LineEndBound(source, delim, pos);
      if IsStuck(source, delim, capacity, window, pos) {
        Stuck(source, delim, keep, capacity, window, pos);
      } else {
        StepAhead(source, delim, keep, capacity, window, pos);
      }
    }
  }

  /** The last line start at or before `end`, and not before `low`. */
  function LastStart(source: string, delim: char, low: nat, end: nat): (p: nat)
    requires low <= end <= |source|
    ensures low <= p <= end
    decreases end
  {
    if end == low || source[end - 1] == delim then end else LastStart(source, delim, low, end - 1)
  }

  /** A buffer that starts at `window`, or one that it moves to later, ends with a line and not with
  the source. */
  ghost predicate BufferEndsALine(source: string, delim: char, capacity: nat, window: nat)
    decreases |source| - window
  {
    window + capacity < |source|
    && (var end := window + capacity;
        (capacity > 0 && source[end - 1] == delim)
        || (var start := LastStart(source, delim, window, end);
            start > window && BufferEndsALine(source, delim, capacity, start)))
  }

  /** For lines that fit and are not empty, reading throws if and only if some buffer ends a line. */
  lemma {:induction false} ThrowsOnBufferEnd(source: string, delim: char, keep: nat, capacity: nat, window: nat, pos: nat)
    requires Fits(source, delim, capacity) && NoEmptyLine(source, delim) && keep <= 1
    requires window <= pos <= WindowEnd(source, capacity, window) && IsLineStart(source, delim, pos)
    ensures Expected(source, delim, keep, capacity, window, pos).ending == BufferTooSmall
            <==> BufferEndsALine(source, delim, capacity, window)
    decreases |source| - pos
  {
    hide *;
    AheadIs(source, delim, keep, capacity, window, pos);
    MovedBound(source, delim, capacity, window, pos);
    if pos == |source| {
      NoMoreBuffers(source, delim, capacity, window);
    } else if IsStuck(source, delim, capacity, window, pos) {
      StuckAtEnd(source, delim, capacity, window, pos);
    } else {
      var next := LineEnd(source, delim, pos);
      var moved := Moved(source, delim, capacity, window, pos);
      var end := WindowEnd(source, capacity, moved);
      LineEndBound(source, delim, pos);
      FittingStep(source, delim, capacity, window, pos);
      MovedBuffer(source, delim, capacity, window, pos);
      PrependEnding(source[pos..if next < end then next + keep else end],
                    Expected(source, delim, keep, capacity, moved, if next < end then next + 1 else end));
      if next < end {
        AfterDelimiter(source, delim, next);
        ThrowsOnBufferEnd(source, delim, keep, capacity, moved, next + 1);
      } else {
        ChunkIsStuck(source, delim, keep, capacity, moved, pos);
        NoMoreBuffers(source, delim, capacity, moved);
      }
    }
  }

  lemma NoMoreBuffers(source: string, delim: char, capacity: nat, window: nat)
    ensures WindowEnd(source, capacity, window) == |source| ==> !BufferEndsALine(source, delim, capacity, window)
  {
  }

  lemma StuckAtEnd(source: string, delim: char, capacity: nat, window: nat, pos: nat)
    requires Fits(source, delim, capacity) && pos < |source| && IsStuck(source, delim, capacity, window, pos)
    requires IsLineStart(source, delim, pos) && window <= pos
    ensures BufferEndsALine(source, delim, capacity, window)
  {
    FitsAt(source, delim, capacity, pos);
    hide Fits, LineEnd, LastStart;
  }

  /** A line that fits and is not at the end of the buffer is complete after the move. */
  lemma FittingStep(source: string, delim: char, capacity: nat, window: nat, pos: nat)
    requires Fits(source, delim, capacity) && NoEmptyLine(source, delim) && IsLineStart(source, delim, pos)
    requires window <= pos <= WindowEnd(source, capacity, window) && pos < |source|
    requires !IsStuck(source, delim, capacity, window, pos)
    ensures LineEnd(source, delim, pos) != pos
    ensures var end := WindowEnd(source, capacity, Moved(source, delim, capacity, window, pos));
      LineEnd(source, delim, pos) < end || end == |source|
  {
    FitsAt(source, delim, capacity, pos);
    LineEndBound(source, delim, pos);
    hide Fits, LineEnd;
  }

  /** The buffer moves to its last line start. */
  lemma MovedBuffer(source: string, delim: char, capacity: nat, window: nat, pos: nat)
    requires window <= pos <= WindowEnd(source, capacity, window) && pos < |source| && IsLineStart(source, delim, pos)
    requires !IsStuck(source, delim, capacity, window, pos)
    ensures BufferEndsALine(source, delim, capacity, Moved(source, delim, capacity, window, pos))
            <==> BufferEndsALine(source, delim, capacity, window)
  {
    hide LineEnd, LastStart;
    if Incomplete(source, delim, capacity, window, pos) {
      var end := window + capacity;
      NotDelimiter(source, delim, pos, end - 1);
      LastStartIs(source, delim, window, end, pos);
    }
  }

  lemma {:induction false} LastStartIs(source: string, delim: char, low: nat, end: nat, pos: nat)
    requires low < pos <= end <= |source| && end <= LineEnd(source, delim, pos) && pos < |source|
    requires IsLineStart(source, delim, pos)
    ensures LastStart(source, delim, low, end) == pos
    decreases end
  {
    hide LineEnd;
    if pos < end {
      NotDelimiter(source, delim, pos, end - 1);
      LastStartIs(source, delim, low, end - 1, pos);
    }
  }

  /** Every line fits the buffer, none is empty, and no buffer ends a line while there is more input. All
  three can be told from the source and the capacity. */
  ghost predicate IsReadWhole(source: string, delim: char, capacity: nat) {
    Fits(source, delim, capacity) && NoEmptyLine(source, delim) && !BufferEndsALine(source, delim, capacity, 0)
  }

  /** Which sources are read to their end, and then the lines are those of the whole text split at
  once. */
  lemma ReadsWholeIff(source: string, delim: char, keep: nat, capacity: nat)
    requires keep <= 1
    ensures var r := Expected(source, delim, keep, capacity, 0, 0);
      && (r.ending == Finished <==> IsReadWhole(source, delim, capacity))
      && (r.ending == Finished ==> r.lines == Rows(source, delim, keep))
  {
    hide Expected, FitsFrom, NoEmptyLineFrom, BufferEndsALine, Rows;
    var r := Expected(source, delim, keep, capacity, 0, 0);
    if r.ending == Finished {
      FinishedMeans(source, delim, keep, capacity, 0, 0);
      ReadingIsSplit(source, delim, keep, capacity, 0, 0);
      assert source[0..] == source;
    }
    if Fits(source, delim, capacity) && NoEmptyLine(source, delim) {
      EmptyLineOnly(source, delim, keep, capacity, 0, 0);
      ThrowsOnBufferEnd(source, delim, keep, capacity, 0, 0);
    }
  }

  /** A buffer that holds the whole source is never too small. */
  lemma WholeSourceFits(source: string, delim: char, keep: nat, capacity: nat)
    requires keep <= 1 && |source| <= capacity
    ensures Expected(source, delim, keep, capacity, 0, 0).ending == Finished <==> NoEmptyLine(source, delim)
  {
    hide Expected, NoEmptyLineFrom;
    forall pos | 0 <= pos < |source|
      ensures LineEnd(source, delim, pos) < pos + capacity || LineEnd(source, delim, pos) == |source| <= pos + capacity
    {
      LineEndBound(source, delim, pos);
    }
    ReadsWholeIff(source, delim, keep, capacity);
  }

  // The delimiter that an unterminated last line may get. `garbage` is what the buffer holds at first.

  /** The byte behind the data of the last buffer, which starts at `window`, is a delimiter. It is
  garbage if the buffer never moved, and otherwise what the buffer that started at `previous` held. */
  ghost predicate DelimiterBehind(source: string, delim: char, garbage: string, window: nat, previous: nat) {
    var k := |source| - window;
    && 0 <= k < |garbage|
    && if window == 0 then garbage[k] == delim else previous + k < |source| && source[previous + k] == delim
  }

  /** The same of the last buffer, told from a buffer that starts at `window`. */
  ghost predicate LastHasDelimiterBehind(source: string, delim: char, garbage: string, window: nat, previous: nat)
    decreases |source| - window
  {
    var end := window + |garbage|;
    if end >= |source| then DelimiterBehind(source, delim, garbage, window, previous)
    else
      var start := LastStart(source, delim, window, end);
      start > window && LastHasDelimiterBehind(source, delim, garbage, start, window)
  }

  /** The last line has no delimiter, but reads as if it had. */
  ghost predicate GainsDelimiter(source: string, delim: char, garbage: string) {
    !Delimited(source, delim) && LastHasDelimiterBehind(source, delim, garbage, 0, 0)
  }

  /** Where the buffer started before it was last moved, once the line at pos is looked up. */
  function Previous(source: string, delim: char, capacity: nat, window: nat, previous: nat, pos: nat): nat {
    if Incomplete(source, delim, capacity, window, pos) then window else previous
  }

  /** Of the calls to come, one takes the byte behind the data for a delimiter. */
  ghost predicate StaleAhead(source: string, delim: char, garbage: string, window: nat, previous: nat, pos: nat)
    requires window <= pos <= WindowEnd(source, |garbage|, window)
    decreases |source| - pos
  {
    pos < |source| && !IsStuck(source, delim, |garbage|, window, pos)
    && (var next := LineEnd(source, delim, pos);
        LineEndBound(source, delim, pos);
        MovedBound(source, delim, |garbage|, window, pos);
        var moved := Moved(source, delim, |garbage|, window, pos);
        var last := Previous(source, delim, |garbage|, window, previous, pos);
        if next < WindowEnd(source, |garbage|, moved) then
          next > pos && StaleAhead(source, delim, garbage, moved, last, next + 1)
        else next == |source| && DelimiterBehind(source, delim, garbage, moved, last))
  }

  lemma NoStaleAhead(source: string, delim: char, garbage: string, window: nat, previous: nat, pos: nat)
    requires window <= pos <= WindowEnd(source, |garbage|, window)
    requires pos == |source| || IsStuck(source, delim, |garbage|, window, pos)
    ensures !StaleAhead(source, delim, garbage, window, previous, pos)
  {
  }

  lemma StaleStep(source: string, delim: char, garbage: string, window: nat, previous: nat, pos: nat)
    requires window <= pos <= WindowEnd(source, |garbage|, window) && pos < |source|
    requires !IsStuck(source, delim, |garbage|, window, pos)
    ensures var next := LineEnd(source, delim, pos);
      var moved := Moved(source, delim, |garbage|, window, pos);
      var last := Previous(source, delim, |garbage|, window, previous, pos);
      && pos <= next <= |source| && moved <= pos < WindowEnd(source, |garbage|, moved) <= |source|
      && StaleAhead(source, delim, garbage, window, previous, pos)
         == if next < WindowEnd(source, |garbage|, moved)
            then next > pos && StaleAhead(source, delim, garbage, moved, last, next + 1)
            else next == |source| && DelimiterBehind(source, delim, garbage, moved, last)
  {
    LineEndBound(source, delim, pos);
    MovedBound(source, delim, |garbage|, window, pos);
    hide FindChar, LineEnd, DelimiterBehind, Previous, IsStuck, Moved;
  }

  /** Only a reading that gets to the end of the source takes such a byte. */
  lemma {:induction false} StaleMeansFinished(source: string, delim: char, keep: nat, garbage: string, window: nat, previous: nat, pos: nat)
    requires keep <= 1 && window <= pos <= WindowEnd(source, |garbage|, window)
    requires StaleAhead(source, delim, garbage, window, previous, pos)
    ensures Expected(source, delim, keep, |garbage|, window, pos).ending == Finished
    decreases |source| - pos
  {
    hide *;
    MovedBound(source, delim, |garbage|, window, pos);
    if pos == |source| || IsStuck(source, delim, |garbage|, window, pos) {
      NoStaleAhead(source, delim, garbage, window, previous, pos);
    } else {
      AheadIs(source, delim, keep, |garbage|, window, pos);
      StaleStep(source, delim, garbage, window, previous, pos);
      var next := LineEnd(source, delim, pos);
      var moved := Moved(source, delim, |garbage|, window, pos);
      var end := WindowEnd(source, |garbage|, moved);
      PrependEnding(source[pos..if next < end then next + keep else end],
                    Expected(source, delim, keep, |garbage|, moved, if next < end then next + 1 else end));
      if next < end {
        StaleMeansFinished(source, delim, keep, garbage, moved,
                           Previous(source, delim, |garbage|, window, previous, pos), next + 1);
      } else {
        BehindMeansEnd(source, delim, garbage, moved, Previous(source, delim, |garbage|, window, previous, pos));
        ChunkIsStuck(source, delim, keep, |garbage|, moved, pos);
      }
    }
  }

  lemma BehindMeansEnd(source: string, delim: char, garbage: string, window: nat, previous: nat)
    requires DelimiterBehind(source, delim, garbage, window, previous)
    ensures WindowEnd(source, |garbage|, window) == |source|
  {
  }

  /** For lines that are all read, the byte is told from the source. */
  lemma {:induction false} StaleFromSource(source: string, delim: char, garbage: string, window: nat, previous: nat, pos: nat)
    requires Fits(source, delim, |garbage|) && NoEmptyLine(source, delim)
    requires !BufferEndsALine(source, delim, |garbage|, window)
    requires window <= pos <= WindowEnd(source, |garbage|, window) && IsLineStart(source, delim, pos)
    ensures StaleAhead(source, delim, garbage, window, previous, pos)
            <==> pos < |source| && !Delimited(source, delim)
                 && LastHasDelimiterBehind(source, delim, garbage, window, previous)
    decreases |source| - pos
  {
    hide *;
    MovedBound(source, delim, |garbage|, window, pos);
    if pos == |source| {
      NoStaleAhead(source, delim, garbage, window, previous, pos);
    } else if IsStuck(source, delim, |garbage|, window, pos) {
      StuckAtEnd(source, delim, |garbage|, window, pos);
    } else {
      StaleStep(source, delim, garbage, window, previous, pos);
      LineEndBound(source, delim, pos);
      FittingStep(source, delim, |garbage|, window, pos);
      MovedBuffer(source, delim, |garbage|, window, pos);
      MovedBehind(source, delim, garbage, window, previous, pos);
      var next := LineEnd(source, delim, pos);
      var moved := Moved(source, delim, |garbage|, window, pos);
      var last := Previous(source, delim, |garbage|, window, previous, pos);
      if next < WindowEnd(source, |garbage|, moved) {
        AfterDelimiter(source, delim, next);
        StaleFromSource(source, delim, garbage, moved, last, next + 1);
        EndsDelimited(source, delim, next);
      } else {
        LastBuffer(source, delim, garbage, moved, last);
        NoDelimiterLeft(source, delim, pos);
        EndsUndelimited(source, delim);
      }
    }
  }

  lemma EndsDelimited(source: string, delim: char, next: nat)
    requires next < |source| && source[next] == delim
    ensures next + 1 == |source| ==> Delimited(source, delim)
  {
  }

  lemma EndsUndelimited(source: string, delim: char)
    requires source != "" && source[|source| - 1] != delim
    ensures !Delimited(source, delim)
  {
  }

  lemma LastBuffer(source: string, delim: char, garbage: string, window: nat, previous: nat)
    requires WindowEnd(source, |garbage|, window) == |source|
    ensures LastHasDelimiterBehind(source, delim, garbage, window, previous)
            == DelimiterBehind(source, delim, garbage, window, previous)
  {
    hide DelimiterBehind, LastStart;
  }

  lemma MovedBehind(source: string, delim: char, garbage: string, window: nat, previous: nat, pos: nat)
    requires window <= pos <= WindowEnd(source, |garbage|, window) && pos < |source| && IsLineStart(source, delim, pos)
    requires !IsStuck(source, delim, |garbage|, window, pos)
    ensures LastHasDelimiterBehind(source, delim, garbage, Moved(source, delim, |garbage|, window, pos),
                                   Previous(source, delim, |garbage|, window, previous, pos))
            <==> LastHasDelimiterBehind(source, delim, garbage, window, previous)
  {
    hide LineEnd, LastStart, DelimiterBehind;
    if Incomplete(source, delim, |garbage|, window, pos) {
      LastStartIs(source, delim, window, window + |garbage|, pos);
    }
  }

  /** An unterminated last line gets a delimiter if and only if the source is read to its end and the
  byte behind the data is a delimiter. That byte is told from the source, or, for a source smaller
  than the buffer, it is garbage. */
  lemma StaleIff(source: string, delim: char, garbage: string)
    ensures StaleAhead(source, delim, garbage, 0, 0, 0)
            <==> IsReadWhole(source, delim, |garbage|) && GainsDelimiter(source, delim, garbage)
  {
    hide Expected, StaleAhead, FitsFrom, NoEmptyLineFrom, BufferEndsALine, LastHasDelimiterBehind;
    ReadsWholeIff(source, delim, 0, |garbage|);
    if StaleAhead(source, delim, garbage, 0, 0, 0) {
      StaleMeansFinished(source, delim, 0, garbage, 0, 0, 0);
    }
    if IsReadWhole(source, delim, |garbage|) {
      StaleFromSource(source, delim, garbage, 0, 0, 0);
    }
  }

  /** A source of which a line is lost, although all lines fit: the first one ends on the last byte of
  the buffer. */
  lemma LineOnLastByte()
    ensures Fits("ab\ncd\n", '\n', 3)
            && Expected("ab\ncd\n", '\n', 0, 3, 0, 0) == Reading(["ab"], BufferTooSmall)
  {
    var s := "ab\ncd\n";
    assert FindChar(s, '\n', 0) == Some(2) && FindChar(s, '\n', 1) == Some(2) && FindChar(s, '\n', 2) == Some(2);
    assert FindChar(s, '\n', 3) == Some(5) && FindChar(s, '\n', 4) == Some(5) && FindChar(s, '\n', 5) == Some(5);
    hide FindChar, Expected;
    assert s[0..2] == "ab";
    StepAhead(s, '\n', 0, 3, 0, 0);
    Stuck(s, '\n', 0, 3, 0, 3);
  }

  /** A source of which a line is lost, although the buffer holds it all: an empty line comes before. */
  lemma EmptyLineInside()
    ensures Expected("a\n\nb\n", '\n', 0, 9, 0, 0) == Reading(["a"], AtEmptyLine)
  {
    var t := "a\n\nb\n";
    assert FindChar(t, '\n', 0) == Some(1) && FindChar(t, '\n', 2) == Some(2);
    hide FindChar, Expected;
    assert t[0..1] == "a";
    StepAhead(t, '\n', 0, 9, 0, 0);
    StepAhead(t, '\n', 0, 9, 0, 2);
  }

  // ------------------------------------------------------------------------- the reader

  datatype Result = GotLine(line: string) | NoLine | Threw

  class StringLines {
    const buffer: array<char>
    const source: string
    const delimiter: char
    const keepDelimiter: bool
    var inputPosition: nat
    var sizeInUse: nat
    var processed: nat
    var index: int           // ordinal of the last line
    var last: bool           // there is no line after it
    ghost const garbage: string  // what the buffer held at first
    ghost var pos: nat           // how much of the source the lines so far take
    ghost var previous: nat      // where the buffer started before it was last moved

    /** Where the buffer starts in the source. */
    ghost function Window(): nat
      reads this`sizeInUse, this`inputPosition
    {
      if sizeInUse <= inputPosition then inputPosition - sizeInUse else 0
    }

    function Keep(): nat {
      if keepDelimiter then 1 else 0
    }

    /** The bytes in use are a window of the source. */
    ghost predicate Windowed()
      reads this`sizeInUse, this`inputPosition, buffer
    {
      && sizeInUse <= buffer.Length == |garbage| && sizeInUse <= inputPosition <= |source|
      && forall k {:trigger buffer[k]} :: 0 <= k < sizeInUse ==> buffer[k] == source[Window() + k]
    }

    /** The bytes behind them are what was there at first, or before the last move. */
    ghost predicate Remembered()
      reads this`sizeInUse, this`inputPosition, this`previous, buffer
    {
      && |garbage| == buffer.Length
      && (Window() > 0 ==> previous + buffer.Length <= |source|)
      && forall k {:trigger buffer[k]} :: sizeInUse <= k < buffer.Length ==>
        buffer[k] == if Window() == 0 then garbage[k] else source[previous + k]
    }

    ghost predicate Valid()
      reads this, buffer
    {
      && Windowed() && Remembered()
      && inputPosition == WindowEnd(source, buffer.Length, Window())
      && Window() <= pos <= inputPosition && processed == pos - Window()
    }

    /** What the calls to come will return. */
    ghost function Ahead(): Reading
      reads this, buffer
      requires Valid()
    {
      Expected(source, delimiter, Keep(), buffer.Length, Window(), pos)
    }

    /** Whether one of them will take a byte behind the data for the delimiter of the last line. */
    ghost predicate WillGain()
      reads this, buffer
      requires Valid()
    {
      StaleAhead(source, delimiter, garbage, Window(), previous, pos)
    }

    /** The buffer, as large as `garbage`, is not initialized. */
    constructor (source: string, garbage: string, delimiter: char, keepDelimiter: bool)
      ensures Valid() && Window() == pos == 0 && index == -1 && fresh(buffer) && buffer.Length == |garbage|
      ensures this.source == source && this.delimiter == delimiter && this.keepDelimiter == keepDelimiter
      ensures Ahead() == Expected(source, delimiter, Keep(), |garbage|, 0, 0)
      ensures WillGain() == StaleAhead(source, delimiter, garbage, 0, 0, 0)
    {
      hide Expected, FindChar, StaleAhead;
      this.source := source;
      this.delimiter := delimiter;
      this.keepDelimiter := keepDelimiter;
      this.garbage := garbage;
      buffer := new char[|garbage|](i requires 0 <= i < |garbage| => garbage[i]);
      inputPosition, sizeInUse, processed, index, last, pos, previous := 0, 0, 0, -1, false, 0, 0;
      new;
      RefillBuffer();
    }

    /** `refillBuffer` */
    method RefillBuffer()
      requires Windowed()
      modifies this`inputPosition, this`sizeInUse, buffer
      ensures Windowed() && Window() == old(Window()) && inputPosition == WindowEnd(source, buffer.Length, Window())
      ensures forall k {:trigger buffer[k]} :: sizeInUse <= k < buffer.Length ==> buffer[k] == old(buffer[k])
    {
      var bytesToRead := if |source| - inputPosition < buffer.Length - sizeInUse then |source| - inputPosition
                         else buffer.Length - sizeInUse;
      for k := 0 to bytesToRead
        invariant forall m {:trigger buffer[m]} :: 0 <= m < sizeInUse + k ==> buffer[m] == source[Window() + m]
        invariant forall m {:trigger buffer[m]} :: sizeInUse + k <= m < buffer.Length ==> buffer[m] == old(buffer[m])
        modifies buffer
      {
        buffer[sizeInUse + k] := source[inputPosition + k];
      }
      inputPosition := inputPosition + bytesToRead;
      sizeInUse := sizeInUse + bytesToRead;
    }

    /** `removeProcessedLines`: the memmove, or the exception. */
    method RemoveProcessedLines() returns (threw: bool)
      requires Windowed()
      modifies this`sizeInUse, this`processed, buffer
      ensures threw == (old(processed) == 0 || old(processed) >= old(sizeInUse))
      ensures threw ==> processed == old(processed) && sizeInUse == old(sizeInUse) && buffer[..] == old(buffer[..])
      ensures !threw ==> Windowed() && Window() == old(Window()) + old(processed) && processed == 0
      ensures forall k {:trigger buffer[k]} :: sizeInUse <= k < buffer.Length ==> buffer[k] == old(buffer[k])
    {
      if processed == 0 || processed >= sizeInUse {
        return true;
      }
      var left := sizeInUse - processed;
      for k := 0 to left
        invariant forall m {:trigger buffer[m]} :: 0 <= m < k ==> buffer[m] == source[Window() + processed + m]
        invariant forall m {:trigger buffer[m]} :: k <= m < buffer.Length ==> buffer[m] == old(buffer[m])
        modifies buffer
      {
        assert buffer[processed + k] == old(buffer[processed + k]);
        buffer[k] := buffer[processed + k];
      }
      sizeInUse := left;
      processed := 0;
      return false;
    }

    /** `std::find` in the bytes in use. */
    method FindDelimiter(from: nat) returns (end: nat)
      requires Windowed() && from <= sizeInUse
      ensures from <= end <= sizeInUse
      ensures end < sizeInUse ==> FindChar(source, delimiter, Window() + from) == Some(Window() + end)
      ensures end == sizeInUse ==>
        FindChar(source, delimiter, Window() + from) == FindChar(source, delimiter, inputPosition)
    {
      end := from;
      while end < sizeInUse && buffer[end] != delimiter
        invariant from <= end <= sizeInUse
        invariant FindChar(source, delimiter, Window() + from) == FindChar(source, delimiter, Window() + end)
      {
        end := end + 1;
      }
    }

    /** The search of `getLineImpl`, with the buffer moved if the next line is not complete in it. */
    method Locate() returns (end: nat, threw: bool)
      requires Valid()
      modifies this`inputPosition, this`sizeInUse, this`processed, this`previous, buffer
      ensures threw == old(IsStuck(source, delimiter, buffer.Length, Window(), pos))
      ensures !threw ==> Valid() && processed <= end <= sizeInUse
      ensures !threw ==>
        Window() == old(Moved(source, delimiter, buffer.Length, Window(), pos))
        && Window() + end == if LineEnd(source, delimiter, pos) < inputPosition then LineEnd(source, delimiter, pos)
                             else inputPosition
      ensures !threw ==> previous == old(Previous(source, delimiter, buffer.Length, Window(), previous, pos))
      ensures !threw ==> forall k {:trigger buffer[k]} :: sizeInUse <= k < buffer.Length ==> buffer[k] == old(buffer[k])
    {
      hide FindChar, Expected, Remembered;
      threw := false;
      end := FindDelimiter(processed);
      LineEndBound(source, delimiter, pos);
      LineEndBound(source, delimiter, inputPosition);
      if end == buffer.Length && inputPosition < |source| {
        threw := MoveBuffer();
        if threw {
          return;
        }
        LineEndBound(source, delimiter, inputPosition);
        end := FindDelimiter(processed);
      }
    }

    /** `removeProcessedLines() && refillBuffer()` */
    method MoveBuffer() returns (threw: bool)
      requires Valid() && sizeInUse == buffer.Length && inputPosition < |source|
      modifies this`inputPosition, this`sizeInUse, this`processed, this`previous, buffer
      ensures threw == old(processed == 0 || processed >= sizeInUse)
      ensures !threw ==> Valid() && Window() == old(Window() + processed) == pos && previous == old(Window())
      ensures !threw ==> forall k {:trigger buffer[k]} :: sizeInUse <= k < buffer.Length ==> buffer[k] == old(buffer[k])
    {
      threw := RemoveProcessedLines();
      if threw {
        return;
      }
      previous := old(Window());
      RefillBuffer();
    }

    /** The next line is the last one and has no delimiter, and the byte that will follow it in the
    buffer, whatever it is left from, is one. */
    ghost predicate StaleNext()
      reads this, buffer
      requires Valid()
    {
      var moved := Moved(source, delimiter, buffer.Length, Window(), pos);
      && pos < |source| && LineEnd(source, delimiter, pos) == |source|
      && !IsStuck(source, delimiter, buffer.Length, Window(), pos)
      && |source| - moved < buffer.Length && moved <= |source| && buffer[|source| - moved] == delimiter
    }

    /** `getLineImpl`: the next line of the source, if there is one. `stale` tells that a byte past
    the data in use was taken for the delimiter of the last line, which then has a delimiter too
    much. */
    method GetLine() returns (r: Result, stale: bool)
      requires Valid()
      modifies this, buffer
      ensures !stale ==>
        var ahead := old(Ahead());
        match r
        case GotLine(line) =>
          && Valid() && ahead.lines != [] && line == ahead.lines[0]
          && Ahead() == Reading(ahead.lines[1..], ahead.ending)
          && index == old(index) + 1 && last == (pos == |source|)
        case NoLine => ahead.lines == [] && (ahead.ending == Finished || ahead.ending == AtEmptyLine)
        case Threw => ahead == Reading([], BufferTooSmall)
      ensures !stale && r.GotLine? ==>
        && Window() == old(Moved(source, delimiter, buffer.Length, Window(), pos))
        && pos == if LineEnd(source, delimiter, old(pos)) < inputPosition
                  then LineEnd(source, delimiter, old(pos)) + 1 else inputPosition
      ensures stale <==> old(StaleNext())
      ensures stale ==> old(WillGain())
      ensures !stale ==> old(WillGain()) == (r.GotLine? && WillGain())
      ensures stale ==>
        && source != "" && source[|source| - 1] != delimiter
        && r.GotLine? && old(Ahead()) == Reading([source[old(pos)..]], Finished)
        && r.line == source[old(pos)..] + (if keepDelimiter then [delimiter] else "")
      ensures !stale && r.GotLine? && keepDelimiter ==> r.line == source[old(pos)..pos]
      ensures if r.GotLine? then old(pos) < pos <= |source| else pos == old(pos)
    {
      hide FindChar, Expected, LineEnd, Moved, IsStuck, StaleAhead, Previous, DelimiterBehind, Remembered, WindowEnd;
      stale := false;
      ghost var window, from, before := Window(), pos, previous;
      var end, threw := Locate();
      if threw {
        Stuck(source, delimiter, Keep(), buffer.Length, window, pos);
        NoStaleAhead(source, delimiter, garbage, window, before, pos);
        return Threw, stale;
      }
      Taken(source, delimiter, Keep(), buffer.Length, window, pos, Window() + end);
      StaleTaken(source, delimiter, garbage, window, before, pos, Window() + end);
      Behind();
      var endsWithDelimiter := end != buffer.Length && buffer[end] == delimiter;
      if end == processed {
        return NoLine, stale;
      }
      var line;
      line, stale := Take(end, endsWithDelimiter);
      if stale {
        NoDelimiterLeft(source, delimiter, from);
      }
      return GotLine(line), stale;
    }

    /** The byte behind the data, told from the state. */
    lemma Behind()
      requires Valid()
      ensures DelimiterBehind(source, delimiter, garbage, Window(), previous)
              <==> sizeInUse < buffer.Length && buffer[sizeInUse] == delimiter
      ensures inputPosition <= |source| && (sizeInUse < buffer.Length ==> inputPosition == |source|)
      ensures Window() + sizeInUse == inputPosition
    {
    }

    /** The view of a line, from the first unprocessed byte; `extra` may reach past the data in use. */
    method View(end: nat, extra: nat) returns (line: string)
      requires Valid() && processed <= end <= sizeInUse && extra <= 1 && end + extra <= buffer.Length
      ensures end + extra <= sizeInUse ==> line == source[pos..Window() + end + extra]
      ensures end + extra > sizeInUse ==> line == source[pos..inputPosition] + [buffer[end]]
    {
      hide FindChar, Expected, LineEnd;
      line := buffer[processed..end + extra];
      var inUse := if end + extra <= sizeInUse then end + extra else end;
      forall m | 0 <= m < inUse - processed ensures line[m] == source[pos + m] {
        assert line[m] == buffer[processed + m];
      }
      InWindow(line[..inUse - processed], source, pos, pos + inUse - processed);
    }

    /** The end of `getLineImpl`: the view, and what is processed now. */
    method Take(end: nat, endsWithDelimiter: bool) returns (line: string, stale: bool)
      requires Valid() && processed < end <= sizeInUse
      requires endsWithDelimiter == (end != buffer.Length && buffer[end] == delimiter)
      modifies this`index, this`processed, this`last, this`pos
      ensures index == old(index) + 1 && stale == (endsWithDelimiter && end == sizeInUse)
      ensures !stale ==> Valid() && last == (pos == |source|) && pos == Window() + end + (if endsWithDelimiter then 1 else 0)
      ensures !stale ==> line == source[old(pos)..Window() + end + (if endsWithDelimiter then Keep() else 0)]
      ensures stale ==> pos == |source| || inputPosition < |source|
      ensures stale ==> line == source[old(pos)..inputPosition] + (if keepDelimiter then [delimiter] else "")
      ensures pos >= old(pos)
    {
      hide FindChar, Expected, LineEnd, WindowEnd, Remembered;
      index := index + 1;
      var extra := if endsWithDelimiter && keepDelimiter then 1 else 0;
      line := View(end, extra);
      stale := endsWithDelimiter && end == sizeInUse;
      processed := end + (if endsWithDelimiter then 1 else 0);
      last := processed == sizeInUse && inputPosition == |source|;
      pos := if stale then |source| else Window() + processed;
    }
  }

  lemma InWindow(line: string, source: string, from: nat, to: nat)
    requires from <= to <= |source| && |line| == to - from
    requires forall m :: 0 <= m < |line| ==> line[m] == source[from + m]
    ensures line == source[from..to]
  {
  }

  lemma NoDelimiterLeft(source: string, delim: char, pos: nat)
    requires pos < |source| && LineEnd(source, delim, pos) == |source|
    ensures source[|source| - 1] != delim
  {
    LineEndBound(source, delim, pos);
    FindCharFirst(source, delim, pos);
  }

  /** Reading a source line by line and putting the lines together again (test_src/Tests.cpp:201-208).
  It stops at an exception, and where a byte behind the data was taken for a delimiter, since the
  next search would start there. */
  method CopyLines(source: string, garbage: string, delimiter: char) returns (copy: string, stale: bool)
    ensures copy == source <==> IsReadWhole(source, delimiter, |garbage|) && !GainsDelimiter(source, delimiter, garbage)
    ensures stale <==> IsReadWhole(source, delimiter, |garbage|) && GainsDelimiter(source, delimiter, garbage)
    ensures if stale then copy == source + [delimiter] else copy <= source
  {
    hide Expected, StaleAhead, FindChar, LineEnd, IsReadWhole, GainsDelimiter, Moved, IsStuck, WindowEnd, StringLines.Windowed, StringLines.Remembered;
    var lines := new StringLines(source, garbage, delimiter, true);
    StaleIff(source, delimiter, garbage);
    ReadsWholeIff(source, delimiter, 1, |garbage|);
    ghost var whole := IsReadWhole(source, delimiter, |garbage|);
    ghost var gains := GainsDelimiter(source, delimiter, garbage);
    copy := "";
    while true
      invariant fresh(lines) && fresh(lines.buffer) && lines.Valid() && lines.source == source
      invariant lines.keepDelimiter && lines.delimiter == delimiter
      invariant lines.pos <= |source| && copy == source[..lines.pos]
      invariant lines.Ahead().ending == Finished <==> whole
      invariant lines.WillGain() <==> whole && gains
      decreases |source| - lines.pos
    {
      AtTheEnd(lines);
      ghost var pos := lines.pos;
      var result, took := lines.GetLine();
      match result {
        case GotLine(line) =>
          copy := copy + line;
          if took {
            assert source[..pos] + source[pos..] == source;
            return copy, true;
          }
          assert source[..pos] + source[pos..lines.pos] == source[..lines.pos];
        case _ => return copy, false;
      }
    }
  }

  /** A reader with nothing left to return is at the end of the source if and only if it finished. */
  lemma AtTheEnd(lines: StringLines)
    requires lines.Valid()
    ensures lines.pos <= |lines.source|
    ensures lines.Ahead().lines == [] ==> (lines.Ahead().ending == Finished <==> lines.pos == |lines.source|)
  {
    hide Expected, FindChar, LineEnd, Prepend, IsStuck, Moved;
    AheadIs(lines.source, lines.delimiter, lines.Keep(), lines.buffer.Length, lines.Window(), lines.pos);
    SomethingPrepended();
  }

  lemma SomethingPrepended()
    ensures forall line, r :: Prepend(line, r).lines != []
  {
  }

  /** A source whose last line gets a delimiter that it does not have: moving the buffer to that line
  leaves the delimiter of an earlier one behind it. */
  method DelimiterFromStaleByte() returns (first: Result, second: Result, third: Result, stale: bool)
    ensures first == GotLine("a\n") && second == GotLine("b\n") && third == GotLine("ccc\n") && stale
  {
    hide FindChar, Expected, LineEnd, Moved;
    ghost var s := "a\nb\nccc";
    ThreeLines();
    var reader := new StringLines("a\nb\nccc", "------", '\n', true);
    first, stale := reader.GetLine();
    assert reader.Window() == 0;
    second, stale := reader.GetLine();
    assert reader.Window() == 0 && reader.pos == 4;
    assert reader.buffer[3] == s[3];
    third, stale := reader.GetLine();
  }

  lemma ThreeLines()
    ensures var s := "a\nb\nccc";
      && LineEnd(s, '\n', 0) == 1 && LineEnd(s, '\n', 2) == 3 && LineEnd(s, '\n', 4) == 7
      && Moved(s, '\n', 6, 0, 0) == 0 && Moved(s, '\n', 6, 0, 2) == 0 && Moved(s, '\n', 6, 0, 4) == 4
      && !IsStuck(s, '\n', 6, 0, 4)
      && Expected(s, '\n', 1, 6, 0, 0) == Prepend("a\n", Expected(s, '\n', 1, 6, 0, 2))
      && Expected(s, '\n', 1, 6, 0, 2) == Prepend("b\n", Expected(s, '\n', 1, 6, 0, 4))
      && Expected(s, '\n', 1, 6, 0, 4) == Prepend("ccc", Expected(s, '\n', 1, 6, 4, 7))
  {
    var s := "a\nb\nccc";
    assert FindChar(s, '\n', 0) == Some(1) && FindChar(s, '\n', 2) == Some(3) && FindChar(s, '\n', 4) == None;
    hide FindChar, Expected;
    assert s[0..2] == "a\n" && s[2..4] == "b\n" && s[4..7] == "ccc";
    StepAhead(s, '\n', 1, 6, 0, 0);
    StepAhead(s, '\n', 1, 6, 0, 2);
    StepAhead(s, '\n', 1, 6, 0, 4);
  }

  /** The line that ends at `to`, or in front of the delimiter there, is the next one. */
  lemma Taken(source: string, delim: char, keep: nat, capacity: nat, window: nat, pos: nat, to: nat)
    requires keep <= 1 && window <= pos <= WindowEnd(source, capacity, window)
    requires !IsStuck(source, delim, capacity, window, pos)
    requires var end := WindowEnd(source, capacity, Moved(source, delim, capacity, window, pos));
      to == if LineEnd(source, delim, pos) < end then LineEnd(source, delim, pos) else end
    ensures var r := Expected(source, delim, keep, capacity, window, pos);
      var moved := Moved(source, delim, capacity, window, pos);
      var end := WindowEnd(source, capacity, moved);
      && moved <= pos <= to <= end <= |source| && (to == |source| ==> LineEnd(source, delim, pos) == |source|)
      && (to < end ==> source[to] == delim)
      && (to == pos ==> r.lines == [] && r.ending != BufferTooSmall)
      && (to > pos ==>
            && r.lines != [] && r.lines[0] == source[pos..if to < end then to + keep else to]
            && Reading(r.lines[1..], r.ending) == Expected(source, delim, keep, capacity, moved, if to < end then to + 1 else to))
      && (pos < to == |source| ==> r == Reading([source[pos..]], Finished))
  {
    hide *;
    AheadIs(source, delim, keep, capacity, window, pos);
    MovedBound(source, delim, capacity, window, pos);
    LineEndBound(source, delim, pos);
    if pos < |source| {
      var moved := Moved(source, delim, capacity, window, pos);
      var end := WindowEnd(source, capacity, moved);
      PrependIs(source[pos..if to < end then to + keep else to],
                Expected(source, delim, keep, capacity, moved, if to < end then to + 1 else to));
      if to == end {
        ChunkIsStuck(source, delim, keep, capacity, moved, pos);
        PrependOnly(source[pos..to], Expected(source, delim, keep, capacity, moved, to));
      }
      assert to == |source| ==> source[pos..to] == source[pos..];
    }
  }

  lemma NoStaleAtEnd(source: string, delim: char, garbage: string, window: nat, previous: nat)
    requires window <= WindowEnd(source, |garbage|, window) <= |source|
    ensures !StaleAhead(source, delim, garbage, window, previous, WindowEnd(source, |garbage|, window))
  {
    hide StaleAhead, FindChar;
    var end := WindowEnd(source, |garbage|, window);
    LineEndBound(source, delim, end);
    NoStaleAhead(source, delim, garbage, window, previous, end);
  }

  /** Whether a delimiter is invented for the line that ends at `to`, or for a later one. */
  lemma StaleTaken(source: string, delim: char, garbage: string, window: nat, previous: nat, pos: nat, to: nat)
    requires window <= pos <= WindowEnd(source, |garbage|, window)
    requires !IsStuck(source, delim, |garbage|, window, pos)
    requires var end := WindowEnd(source, |garbage|, Moved(source, delim, |garbage|, window, pos));
      to == if LineEnd(source, delim, pos) < end then LineEnd(source, delim, pos) else end
    ensures var moved := Moved(source, delim, |garbage|, window, pos);
      var last := Previous(source, delim, |garbage|, window, previous, pos);
      var end := WindowEnd(source, |garbage|, moved);
      && moved <= pos <= to <= end <= |source|
      && StaleAhead(source, delim, garbage, window, previous, pos)
         == (if to == pos then false
             else if to < end then StaleAhead(source, delim, garbage, moved, last, to + 1)
             else LineEnd(source, delim, pos) == |source| && DelimiterBehind(source, delim, garbage, moved, last))
      && (to == end ==> !StaleAhead(source, delim, garbage, moved, last, to))
  {
    hide *;
    MovedBound(source, delim, |garbage|, window, pos);
    LineEndBound(source, delim, pos);
    NoStaleAtEnd(source, delim, garbage, Moved(source, delim, |garbage|, window, pos),
                 Previous(source, delim, |garbage|, window, previous, pos));
    if pos == |source| {
      NoStaleAhead(source, delim, garbage, window, previous, pos);
    } else {
      StaleStep(source, delim, garbage, window, previous, pos);
    }
  }

  lemma PrependOnly(line: string, r: Reading)
    requires r.lines == []
    ensures Prepend(line, r) == Reading([line], r.ending)
  {
  }

  lemma PrependIs(line: string, r: Reading)
    ensures Prepend(line, r).lines != [] && Prepend(line, r).lines[0] == line
    ensures Reading(Prepend(line, r).lines[1..], Prepend(line, r).ending) == r
  {
  }

  /** What a call returns. */
  lemma AheadIs(source: string, delim: char, keep: nat, capacity: nat, window: nat, pos: nat)
    requires keep <= 1 && window <= pos <= WindowEnd(source, capacity, window)
    ensures var r := Expected(source, delim, keep, capacity, window, pos);
      var stuck := IsStuck(source, delim, capacity, window, pos);
      var next := LineEnd(source, delim, pos);
      var moved := Moved(source, delim, capacity, window, pos);
      var end := WindowEnd(source, capacity, moved);
      && (pos == |source| ==> r == Reading([], Finished))
      && (stuck ==> r == Reading([], BufferTooSmall))
      && (pos < |source| && !stuck ==>
            pos <= next <= |source| && pos <= end
            && r == if next == pos then Reading([], AtEmptyLine)
                    else if next < end then Prepend(source[pos..next + keep], Expected(source, delim, keep, capacity, moved, next + 1))
                    else Prepend(source[pos..end], Expected(source, delim, keep, capacity, moved, end)))
  {
    hide FindChar, Expected, LineEnd, Prepend;
    if pos == |source| {
      NothingLeft(source, delim, keep, capacity, window);
      LineEndBound(source, delim, pos);
    } else if IsStuck(source, delim, capacity, window, pos) {
      Stuck(source, delim, keep, capacity, window, pos);
    } else {
      StepAhead(source, delim, keep, capacity, window, pos);
    }
  }
}
