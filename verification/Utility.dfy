/** Splitting text into rows (common/Utility.h:38-83). */
module Utility {
  import opened Options

  // ---------------------------------------------------------------------------- searching

  /** `find(c, from)` */
  function FindChar(s: string, c: char, from: nat): (r: Option<nat>)
    ensures r.Some? ==> from <= r.value < |s| && s[r.value] == c
    decreases |s| - from
  {
    if from >= |s| then None
    else if s[from] == c then Some(from)
    else FindChar(s, c, from + 1)
  }

  /** It finds the first one. */
  lemma {:induction false} FindCharFirst(s: string, c: char, from: nat)
    ensures var end := if FindChar(s, c, from).Some? then FindChar(s, c, from).value else |s|;
      forall i :: from <= i < end ==> s[i] != c
    decreases |s| - from
  {
    if from < |s| && s[from] != c {
      FindCharFirst(s, c, from + 1);
    }
  }

  predicate OccursAt(s: string, pattern: string, i: nat) {
    i + |pattern| <= |s| && s[i..i + |pattern|] == pattern
  }

  /** `find(pattern)`: the first occurrence, if there is one. */
  function FindString(s: string, pattern: string, from: nat): (r: Option<nat>)
    ensures r.Some? ==> from <= r.value && OccursAt(s, pattern, r.value)
    ensures forall i :: from <= i && (r.Some? ==> i < r.value) ==> !OccursAt(s, pattern, i)
    decreases |s| - from
  {
    if from + |pattern| > |s| then None
    else if OccursAt(s, pattern, from) then Some(from)
    else if from == |s| then None
    else FindString(s, pattern, from + 1)
  }

  // ------------------------------------------------------------------------ specification

  /** The rows of a text: each ends at a delimiter or at the end; nothing follows the last
  delimiter when nothing is left. `keep` is 1 to leave the delimiter in its row. */
  ghost function Rows(input: string, delim: char, keep: nat): seq<string>
    requires keep <= 1
  {
    if input == "" then []
    else
      match FindChar(input, delim, 0)
      case None => [input]
      case Some(n) => [input[..n + keep]] + Rows(input[n + 1..], delim, keep)
  }

  ghost function Concat(rows: seq<string>): string {
    if rows == [] then "" else rows[0] + Concat(rows[1..])
  }

  /** How many rows a delimiter ends. */
  ghost function Terminated(input: string, delim: char): nat {
    if input == "" then 0
    else
      match FindChar(input, delim, 0)
      case None => 0
      case Some(n) => 1 + Terminated(input[n + 1..], delim)
  }

  /** No character is lost: rows that keep their delimiters make up the text. */
  lemma {:induction false} RowsMakeText(input: string, delim: char)
    ensures Concat(Rows(input, delim, 1)) == input
  {
    hide FindChar, Rows, Concat;
    if input == "" {
      NoRows(input, delim, 1);
      ConcatNone();
    } else {
      assert input[0..] == input;
      var r := FindChar(input, delim, 0);
      match r
      case None =>
        LastRow(input, delim, 1, 0);
        ConcatCons(input, []);
        ConcatNone();
        assert [input] + [] == [input];
      case Some(n) =>
        NextRow(input, delim, 1, 0, n);
        RowsMakeText(input[n + 1..], delim);
        ConcatCons(input[..n + 1], Rows(input[n + 1..], delim, 1));
        assert input == input[..n + 1] + input[n + 1..];
    }
  }

  /** There is one row for each delimiter, and one more for a last row without one. */
  lemma {:induction false} RowCount(input: string, delim: char, keep: nat)
    requires keep <= 1
    ensures |Rows(input, delim, keep)|
            == Terminated(input, delim) + (if input == "" || input[|input| - 1] == delim then 0 else 1)
  {
    hide FindChar, Rows, Terminated;
    if input == "" {
      NoRows(input, delim, keep);
    } else {
      assert input[0..] == input;
      var r := FindChar(input, delim, 0);
      match r
      case None =>
        FindCharFirst(input, delim, 0);
        LastRow(input, delim, keep, 0);
      case Some(n) =>
        RowCount(input[n + 1..], delim, keep);
        NextRow(input, delim, keep, 0, n);
    }
  }

  lemma {:induction false} ConcatAppend(a: seq<string>, b: seq<string>)
    ensures Concat(a + b) == Concat(a) + Concat(b)
  {
    hide Concat;
    if a == [] {
      assert a + b == b;
      ConcatNone();
    } else {
      ConcatAppend(a[1..], b);
      assert a + b == [a[0]] + (a[1..] + b) && a == [a[0]] + a[1..];
      ConcatCons(a[0], a[1..] + b);
      ConcatCons(a[0], a[1..]);
      StringAssoc(a[0], Concat(a[1..]), Concat(b));
    }
  }

  lemma ConcatNone()
    ensures Concat([]) == ""
  {
  }

  lemma ConcatCons(row: string, rest: seq<string>)
    ensures Concat([row] + rest) == row + Concat(rest)
  {
    assert ([row] + rest)[1..] == rest;
  }

  lemma StringAssoc(a: string, b: string, c: string)
    ensures a + (b + c) == a + b + c
  {
  }

  /** A delimited row is in front of the rest. */
  lemma RowsPrepend(line: string, rest: string, delim: char, keep: nat)
    requires keep <= 1 && delim !in line
    ensures Rows(line + [delim] + rest, delim, keep) == [(line + [delim])[..|line| + keep]] + Rows(rest, delim, keep)
    ensures Terminated(line + [delim] + rest, delim) == 1 + Terminated(rest, delim)
  {
    var s := line + [delim] + rest;
    FirstDelimiter(line, rest, delim, 0);
    assert s[|line| + 1..] == rest;
    assert s[..|line| + keep] == (line + [delim])[..|line| + keep];
  }

  lemma FirstDelimiter(line: string, rest: string, delim: char, from: nat)
    requires delim !in line && from <= |line|
    ensures FindChar(line + [delim] + rest, delim, from) == Some(|line|)
    decreases |line| - from
  {
    if from < |line| {
      FirstDelimiter(line, rest, delim, from + 1);
    }
  }

  // --------------------------------------------------------------------------- operations

  /** The last row, which no delimiter ends. */
  lemma LastRow(input: string, delim: char, keep: nat, start: nat)
    requires keep <= 1 && start < |input| && FindChar(input, delim, start) == None
    ensures Rows(input[start..], delim, keep) == [input[start..]] && Terminated(input[start..], delim) == 0
  {
    FindInTail(input, delim, start, 0);
    hide FindChar;
  }

  /** The next row, and what follows its delimiter. */
  lemma NextRow(input: string, delim: char, keep: nat, start: nat, next: nat)
    requires keep <= 1 && start < |input| && FindChar(input, delim, start) == Some(next)
    ensures start <= next < |input|
    ensures Rows(input[start..], delim, keep) == [input[start..next + keep]] + Rows(input[next + 1..], delim, keep)
    ensures Terminated(input[start..], delim) == 1 + Terminated(input[next + 1..], delim)
  {
    hide Rows, Terminated, FindChar;
    var tail, rest := input[start..], input[next + 1..];
    FindInTail(input, delim, start, 0);
    assert tail[next - start + 1..] == rest;
    assert tail[..next - start + keep] == input[start..next + keep];
    RowsSome(tail, delim, keep, next - start, input[start..next + keep], rest);
  }

  lemma RowsSome(s: string, delim: char, keep: nat, n: nat, row: string, rest: string)
    requires keep <= 1 && s != "" && FindChar(s, delim, 0) == Some(n)
    requires row == s[..n + keep] && rest == s[n + 1..]
    ensures Rows(s, delim, keep) == [row] + Rows(rest, delim, keep)
    ensures Terminated(s, delim) == 1 + Terminated(rest, delim)
  {
    hide FindChar;
  }

  lemma FindInTail(input: string, delim: char, start: nat, from: nat)
    requires start + from <= |input|
    ensures var r := FindChar(input, delim, start + from);
      FindChar(input[start..], delim, from) == if r.None? then None else Some(r.value - start)
    decreases |input| - from
  {
    if start + from < |input| && input[start + from] != delim {
      FindInTail(input, delim, start, from + 1);
    }
  }

  lemma NoRows(input: string, delim: char, keep: nat)
    requires keep <= 1 && input == ""
    ensures Rows(input, delim, keep) == [] && Terminated(input, delim) == 0
  {
  }

  /** `split` on one delimiter: appends the rows. */
  method Split(input: string, rows: seq<string>, delim: char, keep: nat) returns (out: seq<string>)
    requires keep <= 1
    ensures out == rows + Rows(input, delim, keep)
  {
    hide Rows, FindChar, Terminated;
    out := rows;
    var start := 0;
    assert input[0..] == input;
    while start < |input|
      invariant start <= |input|
      invariant out + Rows(input[start..], delim, keep) == rows + Rows(input, delim, keep)
    {
      var next := FindChar(input, delim, start);
      if next.None? {
        LastRow(input, delim, keep, start);
        out := out + [input[start..]];
        return;
      }
      NextRow(input, delim, keep, start, next.value);
      out := out + [input[start..next.value + keep]];
      start := next.value + 1;
    }
    NoRows(input[start..], delim, keep);
  }

  ghost function Reversed(s: seq<string>): seq<string> {
    if s == [] then [] else Reversed(s[1..]) + [s[0]]
  }

  lemma ReversedCons(row: string, rest: seq<string>)
    ensures Reversed([row] + rest) == Reversed(rest) + [row]
  {
    assert ([row] + rest)[1..] == rest;
  }

  /** `splitReversedOrder`: the last row comes first. */
  method SplitReversedOrder(input: string, rows: seq<string>, delim: char, keep: nat) returns (out: seq<string>)
    requires keep <= 1
    ensures out == Reversed(Rows(input, delim, keep)) + rows
  {
    hide Rows, FindChar, Terminated, Reversed;
    out := rows;
    var start := 0;
    assert input[0..] == input;
    while start < |input|
      invariant start <= |input|
      invariant Reversed(Rows(input[start..], delim, keep)) + out == Reversed(Rows(input, delim, keep)) + rows
    {
      var next := FindChar(input, delim, start);
      if next.None? {
        LastRow(input, delim, keep, start);
        ReversedCons(input[start..], []);
        NothingReversed();
        assert [input[start..]] + [] == [input[start..]];
        out := [input[start..]] + out;
        return;
      }
      NextRow(input, delim, keep, start, next.value);
      ReversedCons(input[start..next.value + keep], Rows(input[next.value + 1..], delim, keep));
      out := [input[start..next.value + keep]] + out;
      start := next.value + 1;
    }
    NoRows(input[start..], delim, keep);
    NothingReversed();
  }

  lemma NothingReversed()
    ensures Reversed([]) == []
  {
  }

  /** Rows of an earlier call, overwritten from the front. */
  ghost function Overlay(made: seq<string>, stale: seq<string>): seq<string> {
    if |made| < |stale| then made + stale[|made|..] else made
  }

  lemma OverlayNext(made: seq<string>, stale: seq<string>, row: string)
    ensures var out := Overlay(made, stale);
      |made| <= |out|
      && Overlay(made + [row], stale) == (if |made| >= |out| then out + [row] else out[|made| := row])
  {
  }

  /** `rows[index] = row`, after `emplace_back` if there is no such row yet. */
  method SetRow(rows: seq<string>, index: nat, row: string) returns (out: seq<string>)
    requires index <= |rows|
    ensures out == if index >= |rows| then rows + [row] else rows[index := row]
  {
    out := rows;
    if index >= |out| {
      out := out + [""];
    }
    out := out[index := row];
  }

  /** `splitReuseVector`: overwrites the rows of earlier calls, and returns how many rows a
  delimiter ends, however many stale rows follow. */
  method SplitReuseVector(input: string, rows: seq<string>, delim: char, keep: nat)
    returns (out: seq<string>, index: nat)
    requires keep <= 1
    ensures index == Terminated(input, delim) && out == Overlay(Rows(input, delim, keep), rows)
  {
    hide Rows, FindChar, Terminated, Overlay;
    index := 0;
    var start := 0;
    ghost var made: seq<string> := [];
    out := rows;
    assert input[0..] == input;
    NothingOver(rows);
    while start < |input|
      invariant start <= |input| && index == |made|
      invariant made + Rows(input[start..], delim, keep) == Rows(input, delim, keep)
      invariant index + Terminated(input[start..], delim) == Terminated(input, delim)
      invariant out == Overlay(made, rows)
    {
      var next := FindChar(input, delim, start);
      if next.None? {
        LastRow(input, delim, keep, start);
        OverlayNext(made, rows, input[start..]);
        out := SetRow(out, index, input[start..]);
        return;
      }
      NextRow(input, delim, keep, start, next.value);
      var row := input[start..next.value + keep];
      OverlayNext(made, rows, row);
      out := SetRow(out, index, row);
      made := made + [row];
      index := index + 1;
      start := next.value + 1;
    }
    NoRows(input[start..], delim, keep);
    assert made + [] == made;
  }

  lemma NothingOver(stale: seq<string>)
    ensures Overlay([], stale) == stale
  {
  }
}
