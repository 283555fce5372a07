/** Folding of continuation lines inside one block of a CRAN `PACKAGES` index
    (`remove_package_line_continuations` in conda_build/cran.py).

    A line indented by eight spaces continues the logical line before it. The
    original walks the block as a Python list, overwrites each continuation
    cell with `None` and, when a run of continuations is closed by an ordinary
    line, overwrites the line before the run with the merged text. If any
    continuation was seen it then keeps only the truthy cells, and in every
    case it appends an empty-string sentinel. */
module Continuations {
  import opened Text

  /** The indentation that marks a continuation line. */
  const Indent: string := "        "

  predicate IsContinuation(line: string) {
    StartsWith(line, Indent)
  }

  /** What one continuation line adds to its logical line: `' ' + line.lstrip()`. */
  function Piece(line: string): string {
    " " + LStrip(line)
  }

  /** The pieces of a run of continuation lines, in order. */
  function Pieces(run: seq<string>): string
    decreases |run|
  {
    if run == [] then "" else Pieces(run[..|run| - 1]) + Piece(run[|run| - 1])
  }

  /** The first index at or after `k` that holds an ordinary line, or `|lines|`. */
  function RunEnd(lines: seq<string>, k: nat): (e: nat)
    requires k <= |lines|
    ensures k <= e <= |lines|
    ensures forall j :: k <= j < e ==> IsContinuation(lines[j])
    ensures e < |lines| ==> !IsContinuation(lines[e])
    decreases |lines| - k
  {
    if k == |lines| || !IsContinuation(lines[k]) then k else RunEnd(lines, k + 1)
  }

  /** The original indexes the line before a run with `i - 1`, which for a block
      that starts with a continuation is Python's index of the LAST line; such
      blocks are outside this model. */
  predicate StartsWithOrdinaryLine(lines: seq<string>) {
    lines == [] || !IsContinuation(lines[0])
  }

  predicate HasContinuation(lines: seq<string>) {
    exists j :: 0 <= j < |lines| && IsContinuation(lines[j])
  }

  /** The final content of list cell `j`: `None` for a continuation line; for an
      ordinary line, the line followed by the pieces of the run after it when an
      ordinary line closes that run, and the line unchanged otherwise (no run,
      or a run that reaches the end of the block and is never written back). */
  function FoldedCell(lines: seq<string>, j: nat): Option<string>
    requires j < |lines|
  {
    if IsContinuation(lines[j]) then None
    else
      var e := RunEnd(lines, j + 1);
      if e < |lines| then Some(lines[j] + Pieces(lines[j + 1..e])) else Some(lines[j])
  }

  function FoldedCells(lines: seq<string>): seq<Option<string>> {
    seq(|lines|, j requires 0 <= j < |lines| => FoldedCell(lines, j))
  }

  /** `[c for c in cells if c]`: drops the `None` cells and the empty strings. */
  function Compact(cells: seq<Option<string>>): seq<string>
    decreases |cells|
  {
    if cells == [] then []
    else
      Compact(cells[..|cells| - 1])
      + match cells[|cells| - 1]
        case Some(c) => if c != "" then [c] else []
        case None => []
  }

  /** What `remove_package_line_continuations` returns for a block. */
  function Normalized(lines: seq<string>): seq<string> {
    (if HasContinuation(lines) then Compact(FoldedCells(lines)) else lines) + [""]
  }

  // ---------------------------------------------------------------------------
  // The loop, proved against Normalized.

  /** Cell `j` once the loop has looked at the first `i` lines. */
  function CellAfter(lines: seq<string>, i: nat, j: nat): Option<string>
    requires i <= |lines| && j < |lines|
  {
    if i <= j then Some(lines[j])
    else if IsContinuation(lines[j]) then None
    else
      var e := RunEnd(lines, j + 1);
      if e < i then Some(lines[j] + Pieces(lines[j + 1..e])) else Some(lines[j])
  }

  /** The cells once the loop has looked at the first `i` lines. */
  predicate CellsAfter(lines: seq<string>, i: nat, cells: seq<Option<string>>)
    requires i <= |lines|
  {
    |cells| == |lines| && forall j :: 0 <= j < |lines| ==> cells[j] == CellAfter(lines, i, j)
  }

  /** A run of continuations is open after the ordinary line `ix`, reaches up
      to line `i`, and `merged` is that line followed by the run's pieces. */
  predicate OpenRun(lines: seq<string>, i: nat, ix: nat, merged: string) {
    && ix + 1 < i <= |lines| && !IsContinuation(lines[ix])
    && (forall j :: ix < j < i ==> IsContinuation(lines[j]))
    && merged == lines[ix] + Pieces(lines[ix + 1..i])
  }

  /** The state of the loop once it has looked at the first `i` lines: the
      cells, whether a continuation has been seen, whether a run is open and,
      while one is, the index of the line before it and the merged text so far. */
  predicate Walked(lines: seq<string>, i: nat, cells: seq<Option<string>>,
                   had: bool, accumulating: bool, ix: nat, merged: string)
  {
    && i <= |lines|
    && CellsAfter(lines, i, cells)
    && had == HasContinuation(lines[..i])
    && accumulating == (0 < i && IsContinuation(lines[i - 1]))
    && (accumulating ==> OpenRun(lines, i, ix, merged))
  }

  lemma WalkBegin(lines: seq<string>)
    ensures Walked(lines, 0, seq(|lines|, j requires 0 <= j < |lines| => Some(lines[j])), false, false, 0, "")
  {
  }

  lemma WalkEnd(lines: seq<string>, cells: seq<Option<string>>, had: bool, accumulating: bool, ix: nat, merged: string)
    requires Walked(lines, |lines|, cells, had, accumulating, ix, merged)
    ensures cells == FoldedCells(lines)
    ensures had == HasContinuation(lines)
  {
    assert lines[..|lines|] == lines;
  }

  /** Looking at line `i` leaves every cell alone except cell `i` and the cell
      of an ordinary line whose run line `i` closes. */
  lemma CellKept(lines: seq<string>, i: nat, j: nat)
    requires i < |lines| && j < |lines| && j != i
    requires j < i && !IsContinuation(lines[j]) ==> RunEnd(lines, j + 1) != i
    ensures CellAfter(lines, i + 1, j) == CellAfter(lines, i, j)
  {
  }

  lemma SeenStep(lines: seq<string>, i: nat)
    requires i < |lines|
    ensures HasContinuation(lines[..i + 1]) == (HasContinuation(lines[..i]) || IsContinuation(lines[i]))
  {
    var prefix := lines[..i + 1];
    assert prefix[i] == lines[i];
    assert forall j :: 0 <= j < i ==> prefix[j] == lines[..i][j];
  }

  lemma PiecesStep(lines: seq<string>, from: nat, i: nat)
    requires from <= i < |lines|
    ensures Pieces(lines[from..i + 1]) == Pieces(lines[from..i]) + Piece(lines[i])
  {
    var run := lines[from..i + 1];
    assert run[..|run| - 1] == lines[from..i];
    assert run[|run| - 1] == lines[i];
  }

  /** A continuation line empties its own cell and changes no other. */
  lemma ContinuationCells(lines: seq<string>, i: nat, cells: seq<Option<string>>, cells': seq<Option<string>>)
    requires i < |lines| && IsContinuation(lines[i])
    requires CellsAfter(lines, i, cells)
    requires cells' == cells[i := None]
    ensures CellsAfter(lines, i + 1, cells')
  {
    forall j | 0 <= j < |lines| ensures cells'[j] == CellAfter(lines, i + 1, j) {
      if j != i {
        CellKept(lines, i, j);
      }
    }
  }

  /** A continuation line extends the open run before it. */
  lemma OpenRunStep(lines: seq<string>, i: nat, ix: nat, merged: string)
    requires OpenRun(lines, i, ix, merged)
    requires i < |lines| && IsContinuation(lines[i])
    ensures OpenRun(lines, i + 1, ix, merged + Piece(lines[i]))
  {
    var before, piece := Pieces(lines[ix + 1..i]), Piece(lines[i]);
    PiecesStep(lines, ix + 1, i);
    calc {
      merged + piece;
      (lines[ix] + before) + piece;
      { Reassociate(lines[ix], before, piece); }
      lines[ix] + (before + piece);
      lines[ix] + Pieces(lines[ix + 1..i + 1]);
    }
    RunStep(lines, i, ix);
  }

  lemma RunStep(lines: seq<string>, i: nat, ix: nat)
    requires ix < i < |lines| && IsContinuation(lines[i])
    requires forall j :: ix < j < i ==> IsContinuation(lines[j])
    ensures forall j :: ix < j < i + 1 ==> IsContinuation(lines[j])
  {
  }

  /** A continuation line that extends an open run. */
  lemma WalkContinuing(lines: seq<string>, i: nat, cells: seq<Option<string>>, had: bool, ix: nat, merged: string)
    requires Walked(lines, i, cells, had, true, ix, merged)
    requires i < |lines| && IsContinuation(lines[i])
    ensures Walked(lines, i + 1, cells[i := None], had, true, ix, merged + Piece(lines[i]))
  {
    ContinuationCells(lines, i, cells, cells[i := None]);
    SeenStep(lines, i);
    OpenRunStep(lines, i, ix, merged);
  }

  /** A continuation line that opens a run after the ordinary line `i - 1`. */
  lemma WalkStart(lines: seq<string>, i: nat, cells: seq<Option<string>>, had: bool, ix: nat, merged: string)
    requires StartsWithOrdinaryLine(lines)
    requires Walked(lines, i, cells, had, false, ix, merged)
    requires i < |lines| && IsContinuation(lines[i])
    ensures 0 < i && cells[i - 1] == Some(lines[i - 1])
    ensures Walked(lines, i + 1, cells[i := None], true, true, i - 1, lines[i - 1] + Piece(lines[i]))
  {
    assert 0 < i;
    assert CellAfter(lines, i, i - 1) == Some(lines[i - 1]);
    ContinuationCells(lines, i, cells, cells[i := None]);
    SeenStep(lines, i);
    OpenRunStart(lines, i);
  }

  /** A continuation line after an ordinary one opens a run. */
  lemma OpenRunStart(lines: seq<string>, i: nat)
    requires 0 < i < |lines| && IsContinuation(lines[i]) && !IsContinuation(lines[i - 1])
    ensures OpenRun(lines, i + 1, i - 1, lines[i - 1] + Piece(lines[i]))
  {
    assert lines[i..i + 1] == [lines[i]];
    PiecesOne(lines[i]);
  }

  lemma PiecesOne(line: string)
    ensures Pieces([line]) == Piece(line)
  {
    var piece := Piece(line);
    assert [line][..0] == [];
    assert Pieces([line]) == Pieces([]) + piece;
    assert Pieces([]) + piece == piece;
  }

  /** An ordinary line that closes the run after line `ix`: the merged text is
      written back into cell `ix`. */
  lemma WalkClose(lines: seq<string>, i: nat, cells: seq<Option<string>>, had: bool, ix: nat, merged: string)
    requires Walked(lines, i, cells, had, true, ix, merged)
    requires i < |lines| && !IsContinuation(lines[i])
    ensures Walked(lines, i + 1, cells[ix := Some(merged)], had, false, ix, merged)
  {
    assert RunEnd(lines, ix + 1) == i;
    var cells' := cells[ix := Some(merged)];
    forall j | 0 <= j < |lines| ensures cells'[j] == CellAfter(lines, i + 1, j) {
      if j != i && j != ix {
        if j < ix && !IsContinuation(lines[j]) {
          assert RunEnd(lines, j + 1) <= ix;
        }
        CellKept(lines, i, j);
      }
    }
    SeenStep(lines, i);
  }

  /** An ordinary line that closes no run changes no cell. */
  lemma WalkOrdinary(lines: seq<string>, i: nat, cells: seq<Option<string>>, had: bool, ix: nat, merged: string)
    requires Walked(lines, i, cells, had, false, ix, merged)
    requires i < |lines| && !IsContinuation(lines[i])
    ensures Walked(lines, i + 1, cells, had, false, ix, merged)
  {
    forall j | 0 <= j < |lines| ensures cells[j] == CellAfter(lines, i + 1, j) {
      if j < i && !IsContinuation(lines[j]) && RunEnd(lines, j + 1) == i {
        assert j == i - 1;
        assert lines[j + 1..i] == [];
        assert lines[j] + "" == lines[j];
      } else if j != i {
        CellKept(lines, i, j);
      }
    }
    SeenStep(lines, i);
  }

  /** `[c for c in chunk if c]` over the list of cells. */
  method KeepTruthy(cells: array<Option<string>>) returns (kept: seq<string>)
    ensures kept == Compact(cells[..])
  {
    kept := [];
    for j := 0 to cells.Length
      invariant kept == Compact(cells[..j])
    {
      assert cells[..j + 1][..j] == cells[..j];
      match cells[j]
      case Some(c) =>
        if c != "" { kept := kept + [c]; }
      case None =>
    }
    assert cells[..cells.Length] == cells[..];
  }

  /** `remove_package_line_continuations`: the block is copied into an array of
      cells that the loop overwrites in place, as the original does to its list. */
  method RemoveContinuations(chunk: seq<string>) returns (result: seq<string>)
    requires StartsWithOrdinaryLine(chunk)
    ensures result == Normalized(chunk)
  {
    var n := |chunk|;
    var cells := new Option<string>[n](j requires 0 <= j < n => Some(chunk[j]));
    var continuedIx: nat := 0;
    var continuedLine := "";
    var hadContinuation := false;
    var accumulating := false;

    WalkBegin(chunk);
    for i := 0 to n
      invariant Walked(chunk, i, cells[..], hadContinuation, accumulating, continuedIx, continuedLine)
    {
      if IsContinuation(chunk[i]) {
        var line := Piece(chunk[i]);
        if accumulating {
          WalkContinuing(chunk, i, cells[..], hadContinuation, continuedIx, continuedLine);
          continuedLine := continuedLine + line;
        } else {
          WalkStart(chunk, i, cells[..], hadContinuation, continuedIx, continuedLine);
          continuedIx := i - 1;
          continuedLine := cells[continuedIx].value + line;
          hadContinuation := true;
          accumulating := true;
        }
        cells[i] := None;
      } else if accumulating {
        WalkClose(chunk, i, cells[..], hadContinuation, continuedIx, continuedLine);
        cells[continuedIx] := Some(continuedLine);
        accumulating := false;
      } else {
        WalkOrdinary(chunk, i, cells[..], hadContinuation, continuedIx, continuedLine);
      }
    }
    WalkEnd(chunk, cells[..], hadContinuation, accumulating, continuedIx, continuedLine);

    var kept: seq<string>;
    if hadContinuation {
      kept := KeepTruthy(cells);
    } else {
      // no cell was overwritten: the list is the block itself
      kept := chunk;
    }
    result := kept + [""];
  }

  // ---------------------------------------------------------------------------
  // An independent description of the result: the block's logical lines.

  /** The logical lines of a block: each ordinary line followed by the pieces of
      the continuation run after it, when an ordinary line closes that run. A
      run that reaches the end of the block is dropped and the line before it
      kept as it was. */
  function LogicalLines(lines: seq<string>): seq<string>
    requires StartsWithOrdinaryLine(lines)
    decreases |lines|
  {
    if lines == [] then []
    else
      var e := RunEnd(lines, 1);
      if e == |lines| then [lines[0]]
      else [lines[0] + Pieces(lines[1..e])] + LogicalLines(lines[e..])
  }

  /** `[x for x in xs if x]` on strings. */
  function NonEmpty(xs: seq<string>): seq<string>
    decreases |xs|
  {
    if xs == [] then [] else (if xs[0] != "" then [xs[0]] else []) + NonEmpty(xs[1..])
  }

  lemma {:induction false} CompactAppend(a: seq<Option<string>>, b: seq<Option<string>>)
    ensures Compact(a + b) == Compact(a) + Compact(b)
    decreases |b|
  {
    if b == [] {
      assert a + b == a;
    } else {
      assert (a + b)[..|a + b| - 1] == a + b[..|b| - 1];
      CompactAppend(a, b[..|b| - 1]);
    }
  }

  lemma {:induction false} CompactNones(cells: seq<Option<string>>)
    requires forall j :: 0 <= j < |cells| ==> cells[j].None?
    ensures Compact(cells) == []
    decreases |cells|
  {
    if cells != [] {
      CompactNones(cells[..|cells| - 1]);
    }
  }

  lemma {:induction false} RunEndShift(lines: seq<string>, e: nat, k: nat)
    requires e <= k <= |lines|
    ensures RunEnd(lines, k) == RunEnd(lines[e..], k - e) + e
    decreases |lines| - k
  {
    if k < |lines| {
      assert lines[e..][k - e] == lines[k];
      if IsContinuation(lines[k]) {
        RunEndShift(lines, e, k + 1);
      }
    }
  }

  lemma FoldedCellShift(lines: seq<string>, e: nat, j: nat)
    requires e <= j < |lines|
    ensures FoldedCell(lines, j) == FoldedCell(lines[e..], j - e)
  {
    var rest := lines[e..];
    assert rest[j - e] == lines[j];
    if !IsContinuation(lines[j]) {
      RunEndShift(lines, e, j + 1);
      var end := RunEnd(lines, j + 1);
      assert RunEnd(rest, j - e + 1) == end - e;
      var moved, run := rest[j - e + 1..end - e], lines[j + 1..end];
      assert |moved| == |run|;
      forall t | 0 <= t < |run|
        ensures moved[t] == run[t]
      {
        assert moved[t] == rest[j - e + 1 + t] == lines[j + 1 + t];
      }
      assert moved == run;
    }
  }

  lemma FoldedCellsShift(lines: seq<string>, e: nat)
    requires e <= |lines|
    ensures FoldedCells(lines)[e..] == FoldedCells(lines[e..])
  {
    forall j | e <= j < |lines|
      ensures FoldedCells(lines)[j] == FoldedCells(lines[e..])[j - e]
    {
      FoldedCellShift(lines, e, j);
    }
  }

  lemma NonEmptyCons(x: string, ys: seq<string>)
    ensures NonEmpty([x] + ys) == (if x != "" then [x] else []) + NonEmpty(ys)
  {
    assert ([x] + ys)[1..] == ys;
  }

  /** The folded cells of a block: its first line's cell, then `None` for the
      run after it, then the folded cells of the rest. */
  lemma FirstFoldedCells(lines: seq<string>)
    requires lines != [] && StartsWithOrdinaryLine(lines)
    ensures var e := RunEnd(lines, 1);
            && FoldedCells(lines)[0] == Some(if e < |lines| then lines[0] + Pieces(lines[1..e]) else lines[0])
            && (forall j :: 1 <= j < e ==> FoldedCells(lines)[j].None?)
            && FoldedCells(lines)[e..] == FoldedCells(lines[e..])
  {
    FoldedCellsShift(lines, RunEnd(lines, 1));
  }

  lemma CompactFirstRun(cells: seq<Option<string>>, e: nat, head: string)
    requires 1 <= e <= |cells| && cells[0] == Some(head)
    requires forall j :: 1 <= j < e ==> cells[j].None?
    ensures Compact(cells) == (if head != "" then [head] else []) + Compact(cells[e..])
  {
    var run, rest := cells[1..e], cells[e..];
    SplitAfterFirst(cells, e);
    assert forall j :: 0 <= j < |run| ==> run[j] == cells[j + 1];
    CompactHeadRun(head, run, rest);
  }

  lemma SplitAfterFirst(cells: seq<Option<string>>, e: nat)
    requires 1 <= e <= |cells|
    ensures cells == [cells[0]] + cells[1..e] + cells[e..]
  {
  }

  lemma CompactHeadRun(head: string, run: seq<Option<string>>, rest: seq<Option<string>>)
    requires forall j :: 0 <= j < |run| ==> run[j].None?
    ensures Compact([Some(head)] + run + rest) == (if head != "" then [head] else []) + Compact(rest)
  {
    CompactThree([Some(head)], run, rest);
    CompactNones(run);
    CompactSingle(head);
  }

  lemma CompactThree(a: seq<Option<string>>, b: seq<Option<string>>, c: seq<Option<string>>)
    ensures Compact(a + b + c) == Compact(a) + Compact(b) + Compact(c)
  {
    CompactAppend(a + b, c);
    CompactAppend(a, b);
  }

  lemma CompactSingle(head: string)
    ensures Compact([Some(head)]) == if head != "" then [head] else []
  {
    assert [Some(head)][..0] == [];
  }

  /** The cells left by the loop, compacted, are the non-empty logical lines. */
  lemma {:induction false} FoldingGivesLogicalLines(lines: seq<string>)
    requires StartsWithOrdinaryLine(lines)
    ensures Compact(FoldedCells(lines)) == NonEmpty(LogicalLines(lines))
    decreases |lines|
  {
    if lines != [] {
      var e := RunEnd(lines, 1);
      var head := if e < |lines| then lines[0] + Pieces(lines[1..e]) else lines[0];
      FirstFoldedCells(lines);
      CompactFirstRun(FoldedCells(lines), e, head);
      if e < |lines| {
        FoldingGivesLogicalLines(lines[e..]);
        NonEmptyCons(head, LogicalLines(lines[e..]));
      } else {
        assert FoldedCells(lines[e..]) == [];
        NonEmptyCons(head, []);
      }
    }
  }

  /** Without continuation lines the logical lines are the lines themselves. */
  lemma {:induction false} LogicalLinesWithoutContinuation(lines: seq<string>)
    requires !HasContinuation(lines)
    ensures LogicalLines(lines) == lines
    decreases |lines|
  {
    if lines != [] {
      assert RunEnd(lines, 1) == 1;
      if |lines| > 1 {
        assert !HasContinuation(lines[1..]) by {
          forall j | 0 <= j < |lines| - 1 ensures !IsContinuation(lines[1..][j]) {
            assert lines[1..][j] == lines[j + 1];
          }
        }
        LogicalLinesWithoutContinuation(lines[1..]);
        assert lines[0] + Pieces(lines[1..1]) == lines[0];
        assert lines == [lines[0]] + lines[1..];
      }
    }
  }

  /** `remove_package_line_continuations` returns the logical lines of the
      block followed by the sentinel; when any folding happened the empty
      lines are dropped as well. */
  lemma NormalizedIsLogicalLines(lines: seq<string>)
    requires StartsWithOrdinaryLine(lines)
    ensures HasContinuation(lines) ==> Normalized(lines) == NonEmpty(LogicalLines(lines)) + [""]
    ensures !HasContinuation(lines) ==> Normalized(lines) == LogicalLines(lines) + [""] == lines + [""]
  {
    if HasContinuation(lines) {
      FoldingGivesLogicalLines(lines);
    } else {
      LogicalLinesWithoutContinuation(lines);
    }
  }

  // ---------------------------------------------------------------------------
  // Blocks as the index writes them.

  /** Every line of the block is either a continuation or starts with a
      non-space character (a field name). */
  predicate FieldLines(lines: seq<string>) {
    forall j :: 0 <= j < |lines| ==> IsContinuation(lines[j]) || (lines[j] != "" && !IsSpace(lines[j][0]))
  }

  /** A line whose first character is not a space is not a continuation. */
  predicate StartsWithField(line: string) {
    line != "" && !IsSpace(line[0])
  }

  lemma {:induction false} LogicalLinesStartWithField(lines: seq<string>)
    requires StartsWithOrdinaryLine(lines) && FieldLines(lines)
    ensures forall j :: 0 <= j < |LogicalLines(lines)| ==> StartsWithField(LogicalLines(lines)[j])
    decreases |lines|
  {
    if lines != [] {
      var e := RunEnd(lines, 1);
      if e < |lines| {
        assert FieldLines(lines[e..]) by {
          forall j | 0 <= j < |lines| - e ensures lines[e..][j] == lines[e + j] { }
        }
        LogicalLinesStartWithField(lines[e..]);
      }
    }
  }

  lemma {:induction false} NonEmptyKeepsNonEmpty(xs: seq<string>)
    requires forall j :: 0 <= j < |xs| ==> xs[j] != ""
    ensures NonEmpty(xs) == xs
    decreases |xs|
  {
    if xs != [] {
      NonEmptyKeepsNonEmpty(xs[1..]);
      assert xs == [xs[0]] + xs[1..];
    }
  }

  lemma FieldLineIsOrdinary(line: string)
    requires StartsWithField(line)
    ensures !IsContinuation(line)
  {
  }

  /** For a block of field lines the result is exactly its logical lines and
      the sentinel, and none of its lines is a continuation. */
  lemma FieldBlockNormalized(lines: seq<string>)
    requires StartsWithOrdinaryLine(lines) && FieldLines(lines)
    ensures Normalized(lines) == LogicalLines(lines) + [""]
    ensures !HasContinuation(Normalized(lines))
  {
    NormalizedIsLogicalLines(lines);
    var logical := LogicalLines(lines);
    LogicalLinesStartWithField(lines);
    NonEmptyKeepsNonEmpty(logical);
    var out := logical + [""];
    forall j | 0 <= j < |out| ensures !IsContinuation(out[j]) {
      if j < |logical| {
        FieldLineIsOrdinary(logical[j]);
      }
    }
  }

  /** The merged line is written back only when an ordinary line follows the
      run: a run of continuation lines at the end of a block is dropped, and
      its parent line stays as it was. */
  lemma TrailingRunDropped(parent: string, run: seq<string>)
    requires parent != "" && !IsContinuation(parent)
    requires run != [] && forall j :: 0 <= j < |run| ==> IsContinuation(run[j])
    ensures Normalized([parent] + run) == [parent, ""]
  {
    var lines := [parent] + run;
    assert IsContinuation(lines[1]);
    assert forall j :: 1 <= j < |lines| ==> lines[j] == run[j - 1];
    NormalizedIsLogicalLines(lines);
    NonEmptyCons(parent, []);
  }

  /** A run that goes on to the end of the lines ends there. */
  lemma {:induction false} RunEndAtEnd(lines: seq<string>, k: nat)
    requires k <= |lines|
    requires forall j :: k <= j < |lines| ==> IsContinuation(lines[j])
    ensures RunEnd(lines, k) == |lines|
    decreases |lines| - k
  {
    if k < |lines| {
      RunEndAtEnd(lines, k + 1);
    }
  }

  /** Appending continuation lines moves only a run that already reached the end. */
  lemma {:induction false} RunEndAppend(lines: seq<string>, run: seq<string>, k: nat)
    requires k <= |lines|
    requires forall j :: 0 <= j < |run| ==> IsContinuation(run[j])
    ensures RunEnd(lines, k) < |lines| ==> RunEnd(lines + run, k) == RunEnd(lines, k)
    ensures RunEnd(lines, k) == |lines| ==> RunEnd(lines + run, k) == |lines + run|
    decreases |lines| - k
  {
    var all := lines + run;
    if k == |lines| {
      forall j | k <= j < |all| ensures IsContinuation(all[j]) {
        assert all[j] == run[j - |lines|];
      }
      RunEndAtEnd(all, k);
    } else {
      assert all[k] == lines[k];
      if IsContinuation(lines[k]) {
        RunEndAppend(lines, run, k + 1);
      }
    }
  }

  /** Wherever a block ends, continuation lines added after it are dropped:
      the block has the same logical lines with or without them. */
  lemma {:induction false} TrailingRunDroppedAnywhere(lines: seq<string>, run: seq<string>)
    requires lines != [] && StartsWithOrdinaryLine(lines)
    requires forall j :: 0 <= j < |run| ==> IsContinuation(run[j])
    ensures StartsWithOrdinaryLine(lines + run)
    ensures LogicalLines(lines + run) == LogicalLines(lines)
    ensures run != [] ==> Normalized(lines + run) == NonEmpty(LogicalLines(lines)) + [""]
    decreases |lines|
  {
    var all := lines + run;
    assert all[0] == lines[0];
    RunEndAppend(lines, run, 1);
    var e := RunEnd(lines, 1);
    if e < |lines| {
      assert all[1..e] == lines[1..e];
      assert all[e..] == lines[e..] + run;
      TrailingRunDroppedAnywhere(lines[e..], run);
    }
    if run != [] {
      assert IsContinuation(all[|lines|]) by { assert all[|lines|] == run[0]; }
      NormalizedIsLogicalLines(all);
    }
  }

  /** Applying the normalisation to its own output on a block of field lines
      only appends another sentinel. */
  lemma NormalizeTwice(lines: seq<string>)
    requires StartsWithOrdinaryLine(lines) && FieldLines(lines)
    ensures StartsWithOrdinaryLine(Normalized(lines))
    ensures Normalized(Normalized(lines)) == Normalized(lines) + [""]
  {
    FieldBlockNormalized(lines);
    assert !HasContinuation(Normalized(lines));
  }

  /** Outside blocks of field lines a second pass can fold again: a parent of
      seven spaces merged with the piece `" foo"` is itself indented by eight. */
  lemma SpaceParentMakesContinuation()
    ensures var out := Normalized(["P: x", "       ", "        foo", "V: 1"]);
            out == ["P: x", "        foo", "V: 1", ""] && IsContinuation(out[1])
  {
    var lines := ["P: x", "       ", "        foo", "V: 1"];
    var logical := ["P: x", "        foo", "V: 1"];
    SpaceParentLogical(lines, logical);
    NormalizedIsLogicalLines(lines);
    NonEmptyOfThree(logical);
  }

  lemma NonEmptyOfThree(xs: seq<string>)
    requires |xs| == 3 && xs[0] != "" && xs[1] != "" && xs[2] != ""
    ensures NonEmpty(xs) == xs
  {
    NonEmptyCons(xs[2], []);
    assert xs[1..][1..] == [xs[2]];
    NonEmptyCons(xs[1], [xs[2]]);
    assert xs[1..] == [xs[1], xs[2]];
    NonEmptyCons(xs[0], xs[1..]);
    assert [xs[0]] + xs[1..] == xs;
  }

  lemma SpaceParentLogical(lines: seq<string>, logical: seq<string>)
    requires lines == ["P: x", "       ", "        foo", "V: 1"] && logical == ["P: x", "        foo", "V: 1"]
    ensures StartsWithOrdinaryLine(lines) && HasContinuation(lines)
    ensures LogicalLines(lines) == logical && IsContinuation(logical[1])
  {
    var tail := ["       ", "        foo", "V: 1"];
    assert lines[1..] == tail && lines[1..1] == [];
    SpaceParentTail(tail);
    assert IsContinuation(lines[2]) by { assert lines[2] == tail[1]; }
    assert !IsContinuation(lines[0]) && !IsContinuation(lines[1]);
    assert RunEnd(lines, 1) == 1;
    assert Pieces([]) == "" && lines[0] + "" == "P: x";
    assert LogicalLines(lines) == [lines[0] + Pieces(lines[1..1])] + LogicalLines(lines[1..]);
    assert logical[1] == tail[1];
  }

  lemma SpaceParentTail(tail: seq<string>)
    requires tail == ["       ", "        foo", "V: 1"]
    ensures StartsWithOrdinaryLine(tail) && IsContinuation(tail[1])
    ensures LogicalLines(tail) == ["        foo", "V: 1"]
  {
    var cont := tail[1];
    assert IsContinuation(cont) by { assert cont[..8] == Indent; }
    assert !IsContinuation(tail[0]) && !IsContinuation(tail[2]);
    assert RunEnd(tail, 2) == 2;
    assert tail[1..2] == [cont] && tail[2..] == ["V: 1"];
    PiecesOne(cont);
    EightSpacesStripped(cont);
    assert RunEnd(["V: 1"], 1) == 1;
    assert LogicalLines(["V: 1"]) == ["V: 1"];
    assert Pieces(tail[1..2]) == " foo";
    assert tail[0] + " foo" == "        foo";
    assert LogicalLines(tail) == [tail[0] + Pieces(tail[1..2])] + LogicalLines(tail[2..]);
  }

  lemma EightSpacesStripped(line: string)
    requires line == "        foo"
    ensures LStrip(line) == "foo"
  {
    LStripShape(line);
    var r := LStrip(line);
    assert !IsSpace(line[8]);
    assert forall i :: 0 <= i < 8 ==> IsSpace(line[i]);
    assert |r| == 3;
    assert r == line[8..];
  }

  /** The number of continuation lines of a block. */
  function ContinuationCount(lines: seq<string>): nat
    decreases |lines|
  {
    if lines == [] then 0 else (if IsContinuation(lines[0]) then 1 else 0) + ContinuationCount(lines[1..])
  }

  lemma {:induction false} ContinuationCountOfRun(run: seq<string>)
    requires forall j :: 0 <= j < |run| ==> IsContinuation(run[j])
    ensures ContinuationCount(run) == |run|
    decreases |run|
  {
    if run != [] {
      ContinuationCountOfRun(run[1..]);
    }
  }

  lemma {:induction false} ContinuationCountAppend(a: seq<string>, b: seq<string>)
    ensures ContinuationCount(a + b) == ContinuationCount(a) + ContinuationCount(b)
    decreases |a|
  {
    if a == [] {
      assert a + b == b;
    } else {
      assert (a + b)[1..] == a[1..] + b;
      ContinuationCountAppend(a[1..], b);
    }
  }

  lemma {:induction false} LogicalLinesCount(lines: seq<string>)
    requires StartsWithOrdinaryLine(lines)
    ensures |LogicalLines(lines)| == |lines| - ContinuationCount(lines)
    decreases |lines|
  {
    if lines != [] {
      var e := RunEnd(lines, 1);
      assert lines == [lines[0]] + lines[1..e] + lines[e..];
      ContinuationCountAppend([lines[0]] + lines[1..e], lines[e..]);
      ContinuationCountAppend([lines[0]], lines[1..e]);
      ContinuationCountOfRun(lines[1..e]);
      assert ContinuationCount([lines[0]]) == 0 by { assert [lines[0]][1..] == []; }
      if e < |lines| {
        LogicalLinesCount(lines[e..]);
      } else {
        assert lines[e..] == [];
      }
    }
  }

  /** On a block of field lines the result is shorter than the block by the
      number of continuation lines, not counting the sentinel. */
  lemma NormalizedLength(lines: seq<string>)
    requires StartsWithOrdinaryLine(lines) && FieldLines(lines)
    ensures |Normalized(lines)| == |lines| - ContinuationCount(lines) + 1
  {
    FieldBlockNormalized(lines);
    LogicalLinesCount(lines);
  }
}
