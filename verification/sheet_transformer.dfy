/** `replaceExcel` of app/page.tsx: the two-pass substitution over the rows of
    the sheet to translate.

    Pass 1 looks at every cell on its own. A cell with a non-empty exact
    dictionary value becomes that value. A text cell containing a comma is
    segmented, each segment is looked up in the sorted list, and the results
    are joined with ", "; if some segment found no value the cell is recorded
    as pending. Pass 2 walks the pending cells in the order they were
    recorded and, for each, the sorted list longest key first: an entry whose
    dictionary value is ignored is skipped, and otherwise, when the pass-1
    text of the cell contains the key, the first occurrence of the key in the
    cell's current text is replaced by the dictionary value. */
module SheetTransformer {
  import opened Wrappers
  import opened Strings
  import opened Segmenter
  import opened TranslationIndex

  /** A sheet cell: text, or anything else (numbers, empty slots), which no
      key ever matches. */
  datatype Cell = Text(s: string) | Other

  type Grid = seq<seq<Cell>>

  /** A compound cell left for pass 2: its pass-1 text and its position. */
  datatype Pending = Pending(cell: string, row: nat, col: nat)

  /** What pass 1 makes of one cell, and whether it is left pending. */
  datatype CellResult = CellResult(cell: Cell, pending: bool)

  datatype Pass1Output = Pass1Output(grid: Grid, pending: seq<Pending>)

  // ---------------------------------------------------------------------
  // Pass 1, one cell.

  /** `map[cell]` is truthy: the key is present with a non-empty value. */
  predicate ExactHit(dict: map<string, string>, s: string) {
    s in dict && dict[s] != ""
  }

  /** A segment's translation: the value of the first sorted entry with that
      key, when it is non-empty. */
  function TranslateSegment(sorted: seq<Entry>, seg: string): (r: Option<string>)
    ensures r.Some? ==> r.value != "" && exists i: nat :: FirstWithKey(sorted, seg, i) && sorted[i].value == r.value
    ensures r.None? ==> forall i: nat :: FirstWithKey(sorted, seg, i) ==> sorted[i].value == ""
  {
    match Find(sorted, seg)
    case Some(v) =>
      var j: nat :| FirstWithKey(sorted, seg, j) && sorted[j].value == v;
      FirstWithKeyUnique(sorted, seg, j);
      if v != "" then Some(v) else None
    case None => None
  }

  /** At most one entry is the first with a given key. */
  lemma FirstWithKeyUnique(sorted: seq<Entry>, seg: string, j: nat)
    requires FirstWithKey(sorted, seg, j)
    ensures forall i: nat :: FirstWithKey(sorted, seg, i) ==> i == j
  {
  }

  /** Every segment replaced by its translation, or kept when it has none. */
  function Translated(sorted: seq<Entry>, segs: seq<string>): (r: seq<string>)
    ensures |r| == |segs|
    ensures forall i :: 0 <= i < |segs| ==> r[i] == TranslateSegment(sorted, segs[i]).GetOr(segs[i])
  {
    seq(|segs|, i requires 0 <= i < |segs| => TranslateSegment(sorted, segs[i]).GetOr(segs[i]))
  }

  /** Segment `i` of the mapped list is the value of the first sorted entry
      with an equal key when that value is non-empty, and the segment itself
      when the value is empty or no entry has that key. */
  lemma TranslatedByFirstEntry(sorted: seq<Entry>, segs: seq<string>, i: nat)
    requires i < |segs|
    ensures (forall j :: 0 <= j < |sorted| ==> sorted[j].key != segs[i]) ==>
      Translated(sorted, segs)[i] == segs[i]
    ensures forall j: nat :: FirstWithKey(sorted, segs[i], j) ==>
      Translated(sorted, segs)[i] == (if sorted[j].value != "" then sorted[j].value else segs[i])
  {
    forall j: nat | FirstWithKey(sorted, segs[i], j)
      ensures Translated(sorted, segs)[i] == (if sorted[j].value != "" then sorted[j].value else segs[i])
    {
      FirstWithKeyUnique(sorted, segs[i], j);
    }
  }

  /** `splitMatchCount`: how many segments found a translation. */
  function MatchCount(sorted: seq<Entry>, segs: seq<string>): nat {
    if |segs| == 0 then 0
    else (if TranslateSegment(sorted, segs[0]).Some? then 1 else 0) + MatchCount(sorted, segs[1..])
  }

  /** Fewer matches than segments exactly when some segment found no
      translation; the count never exceeds the number of segments. */
  lemma {:induction false} MatchCountShort(sorted: seq<Entry>, segs: seq<string>)
    ensures MatchCount(sorted, segs) <= |segs|
    ensures MatchCount(sorted, segs) < |segs| <==>
      exists i :: 0 <= i < |segs| && TranslateSegment(sorted, segs[i]).None?
  {
    if |segs| > 0 {
      MatchCountShort(sorted, segs[1..]);
      if TranslateSegment(sorted, segs[0]).Some? && MatchCount(sorted, segs) < |segs| {
        var i :| 0 <= i < |segs[1..]| && TranslateSegment(sorted, segs[1..][i]).None?;
        assert segs[i + 1] == segs[1..][i];
      }
      if exists i :: 0 <= i < |segs| && TranslateSegment(sorted, segs[i]).None? {
        var i :| 0 <= i < |segs| && TranslateSegment(sorted, segs[i]).None?;
        if i > 0 {
          assert segs[1..][i - 1] == segs[i];
        }
      }
    }
  }

  /** Pass 1 on one cell. */
  function Pass1Cell(cell: Cell, data: ReplaceData): CellResult {
    match cell
    case Other => CellResult(Other, false)
    case Text(s) =>
      if ExactHit(data.dict, s) then CellResult(Text(data.dict[s]), false)
      else if ',' in s then
        var segs := Segments(s);
        CellResult(Text(Join(Translated(data.sorted, segs), Separator)),
                   MatchCount(data.sorted, segs) < |segs|)
      else CellResult(cell, false)
  }

  /** Pass 1 as a function of the cell alone. */
  function Pass1Step(data: ReplaceData): Cell -> CellResult {
    c => Pass1Cell(c, data)
  }

  /** A cell with a non-empty exact value becomes exactly that value and is
      never pending. */
  lemma ExactMatchCell(s: string, data: ReplaceData)
    requires ExactHit(data.dict, s)
    ensures Pass1Cell(Text(s), data) == CellResult(Text(data.dict[s]), false)
  {
  }

  /** A cell without a non-empty exact value that is not text containing a
      comma comes out of pass 1 as it went in, and is not pending. */
  lemma PlainCellUnchanged(cell: Cell, data: ReplaceData)
    requires cell.Text? ==> !ExactHit(data.dict, cell.s) && ',' !in cell.s
    ensures Pass1Cell(cell, data) == CellResult(cell, false)
  {
  }

  /** A compound cell becomes the ", "-join of its segments, each replaced by
      the non-empty value of the first sorted entry with an equal key, and is
      pending exactly when some segment stayed untranslated. */
  lemma CompoundCell(s: string, data: ReplaceData)
    requires !ExactHit(data.dict, s) && ',' in s
    ensures var segs := Segments(s);
      var o := Pass1Cell(Text(s), data);
      && o.cell.Text?
      && o.cell.s == Join(Translated(data.sorted, segs), Separator)
      && (o.pending <==> exists i :: 0 <= i < |segs| && TranslateSegment(data.sorted, segs[i]).None?)
  {
    MatchCountShort(data.sorted, Segments(s));
  }

  // ---------------------------------------------------------------------
  // Pass 1, the whole grid.

  predicate InBounds(g: Grid, r: nat, c: nat) {
    r < |g| && c < |g[r]|
  }

  /** Same number of rows, and each row the same length. */
  predicate SameShape(a: Grid, b: Grid) {
    |a| == |b| && forall r :: 0 <= r < |a| ==> |a[r]| == |b[r]|
  }

  /** Row-major order of positions. */
  predicate Before(p: Pending, q: Pending) {
    p.row < q.row || (p.row == q.row && p.col < q.col)
  }

  /** Some pending record sits at row `r`, column `c`. */
  predicate PendingAt(pend: seq<Pending>, r: nat, c: nat) {
    exists k :: 0 <= k < |pend| && pend[k].row == r && pend[k].col == c
  }

  /** A pass-1 result that leaves a text cell pending. */
  predicate IsPending(o: CellResult) {
    o.pending && o.cell.Text?
  }

  /** `pend` is the pending list of `grid` under the per-cell step `step`:
      each record names a cell the step leaves pending, with that cell's
      pass-1 text; every such cell has a record; and records come in
      row-major order, so no position twice. */
  ghost predicate RecordsPending(pend: seq<Pending>, grid: Grid, step: Cell -> CellResult) {
    && (forall k :: 0 <= k < |pend| ==>
          && InBounds(grid, pend[k].row, pend[k].col)
          && step(grid[pend[k].row][pend[k].col]) == CellResult(Text(pend[k].cell), true))
    && (forall r: nat, c: nat :: InBounds(grid, r, c) && IsPending(step(grid[r][c])) ==>
          PendingAt(pend, r, c))
    && (forall k, k' :: 0 <= k < k' < |pend| ==> Before(pend[k], pend[k']))
  }

  /** The inner `item.map` of pass 1 over row `r`, whose cells are `row`:
      the new cells and the row's pending records, left to right. */
  function Pass1Row(row: seq<Cell>, r: nat, step: Cell -> CellResult): (res: (seq<Cell>, seq<Pending>))
    ensures |res.0| == |row|
  {
    if |row| == 0 then ([], [])
    else
      var n := |row| - 1;
      var prev := Pass1Row(row[..n], r, step);
      var o := step(row[n]);
      (prev.0 + [o.cell], prev.1 + (if IsPending(o) then [Pending(o.cell.s, r, n)] else []))
  }

  /** Pass 1 on a row transforms each cell on its own. */
  lemma {:induction false} Pass1RowCells(row: seq<Cell>, r: nat, step: Cell -> CellResult)
    ensures forall c :: 0 <= c < |row| ==> Pass1Row(row, r, step).0[c] == step(row[c]).cell
  {
    if |row| > 0 {
      var n := |row| - 1;
      Pass1RowCells(row[..n], r, step);
      assert forall c :: 0 <= c < n ==> row[..n][c] == row[c];
    }
  }

  /** Every record in `pend` names a pending cell of `row` (row `r`), with
      its text, left to right. */
  ghost predicate RowRecords(pend: seq<Pending>, row: seq<Cell>, r: nat, step: Cell -> CellResult) {
    && (forall k :: 0 <= k < |pend| ==> pend[k].row == r && pend[k].col < |row|)
    && (forall k :: 0 <= k < |pend| ==> step(row[pend[k].col]) == CellResult(Text(pend[k].cell), true))
    && (forall k, k' :: 0 <= k < k' < |pend| ==> pend[k].col < pend[k'].col)
  }

  /** Every record of a row names a pending cell of that row, left to right. */
  lemma {:induction false} Pass1RowSound(row: seq<Cell>, r: nat, step: Cell -> CellResult)
    ensures RowRecords(Pass1Row(row, r, step).1, row, r, step)
  {
    if |row| > 0 {
      var n := |row| - 1;
      var init := row[..n];
      Pass1RowSound(init, r, step);
      var prev := Pass1Row(init, r, step).1;
      assert RowRecords(prev, init, r, step);
      var o := step(row[n]);
      var tail := if IsPending(o) then [Pending(o.cell.s, r, n)] else [];
      var pend := Pass1Row(row, r, step).1;
      assert pend == prev + tail;
      forall k | 0 <= k < |prev|
        ensures pend[k] == prev[k] && prev[k].col < n
        ensures step(row[prev[k].col]) == CellResult(Text(prev[k].cell), true)
      {
        assert init[prev[k].col] == row[prev[k].col];
      }
      forall k | |prev| <= k < |pend|
        ensures pend[k] == Pending(o.cell.s, r, n) && IsPending(o)
      {
      }
    }
  }

  /** Every pending cell of a row has a record. */
  lemma {:induction false} Pass1RowComplete(row: seq<Cell>, r: nat, step: Cell -> CellResult)
    ensures var pend := Pass1Row(row, r, step).1;
      forall c :: 0 <= c < |row| && IsPending(step(row[c])) ==> PendingAt(pend, r, c)
  {
    if |row| > 0 {
      var n := |row| - 1;
      Pass1RowComplete(row[..n], r, step);
      var prev := Pass1Row(row[..n], r, step).1;
      var o := step(row[n]);
      var pend := Pass1Row(row, r, step).1;
      assert pend == prev + (if IsPending(o) then [Pending(o.cell.s, r, n)] else []);
      forall c | 0 <= c < |row| && IsPending(step(row[c]))
        ensures PendingAt(pend, r, c)
      {
        if c < n {
          assert row[..n][c] == row[c];
          var k :| 0 <= k < |prev| && prev[k].row == r && prev[k].col == c;
          assert pend[k] == prev[k];
        } else {
          assert pend[|pend| - 1].row == r && pend[|pend| - 1].col == c;
        }
      }
    }
  }

  /** The outer `sheetData.map` of pass 1: the new grid and the pending list,
      rows top to bottom. */
  function Pass1Grid(grid: Grid, step: Cell -> CellResult): (res: Pass1Output)
    ensures |res.grid| == |grid|
  {
    if |grid| == 0 then Pass1Output([], [])
    else
      var n := |grid| - 1;
      var prev := Pass1Grid(grid[..n], step);
      var row := Pass1Row(grid[n], n, step);
      Pass1Output(prev.grid + [row.0], prev.pending + row.1)
  }

  /** Pass 1 keeps the grid's shape and transforms each cell on its own. */
  lemma {:induction false} Pass1GridCells(grid: Grid, step: Cell -> CellResult)
    ensures SameShape(Pass1Grid(grid, step).grid, grid)
    ensures forall r, c :: 0 <= r < |grid| && 0 <= c < |grid[r]| ==>
      Pass1Grid(grid, step).grid[r][c] == step(grid[r][c]).cell
  {
    if |grid| > 0 {
      var n := |grid| - 1;
      var init := grid[..n];
      Pass1GridCells(init, step);
      Pass1RowCells(grid[n], n, step);
      var prev := Pass1Grid(init, step);
      var out := Pass1Grid(grid, step);
      assert out.grid == prev.grid + [Pass1Row(grid[n], n, step).0];
      assert forall r :: 0 <= r < n ==> init[r] == grid[r] && out.grid[r] == prev.grid[r];
    }
  }

  /** Every record of pass 1 names a pending cell of the grid, with its text,
      in row-major order. */
  ghost predicate GridRecords(pend: seq<Pending>, grid: Grid, step: Cell -> CellResult) {
    && (forall k :: 0 <= k < |pend| ==> InBounds(grid, pend[k].row, pend[k].col))
    && (forall k :: 0 <= k < |pend| ==>
          step(grid[pend[k].row][pend[k].col]) == CellResult(Text(pend[k].cell), true))
    && (forall k, k' :: 0 <= k < k' < |pend| ==> Before(pend[k], pend[k']))
  }

  /** The pending list of pass 1 is sound and in row-major order. */
  lemma {:induction false} Pass1GridSound(grid: Grid, step: Cell -> CellResult)
    ensures GridRecords(Pass1Grid(grid, step).pending, grid, step)
  {
    if |grid| > 0 {
      var n := |grid| - 1;
      var init := grid[..n];
      Pass1GridSound(init, step);
      Pass1RowSound(grid[n], n, step);
      var prev := Pass1Grid(init, step).pending;
      var row := Pass1Row(grid[n], n, step).1;
      assert GridRecords(prev, init, step);
      assert RowRecords(row, grid[n], n, step);
      var pend := Pass1Grid(grid, step).pending;
      assert pend == prev + row;
      forall k | 0 <= k < |prev|
        ensures pend[k] == prev[k] && prev[k].row < n
        ensures InBounds(grid, prev[k].row, prev[k].col)
        ensures step(grid[prev[k].row][prev[k].col]) == CellResult(Text(prev[k].cell), true)
      {
        assert init[prev[k].row] == grid[prev[k].row];
      }
      forall k | |prev| <= k < |pend|
        ensures pend[k] == row[k - |prev|]
      {
      }
    }
  }

  /** Every pending cell of the grid has a record. */
  lemma {:induction false} Pass1GridComplete(grid: Grid, step: Cell -> CellResult)
    ensures forall r: nat, c: nat :: InBounds(grid, r, c) && IsPending(step(grid[r][c])) ==>
      PendingAt(Pass1Grid(grid, step).pending, r, c)
  {
    if |grid| > 0 {
      var n := |grid| - 1;
      var init := grid[..n];
      Pass1GridComplete(init, step);
      Pass1RowComplete(grid[n], n, step);
      var prev := Pass1Grid(init, step).pending;
      var row := Pass1Row(grid[n], n, step).1;
      var pend := Pass1Grid(grid, step).pending;
      assert pend == prev + row;
      forall r: nat, c: nat | InBounds(grid, r, c) && IsPending(step(grid[r][c]))
        ensures PendingAt(pend, r, c)
      {
        if r < n {
          assert init[r] == grid[r];
          assert InBounds(init, r, c);
          var k :| 0 <= k < |prev| && prev[k].row == r && prev[k].col == c;
          assert pend[k] == prev[k];
        } else {
          var k :| 0 <= k < |row| && row[k].row == r && row[k].col == c;
          assert pend[|prev| + k] == row[k];
        }
      }
    }
  }

  /** Pass 1 keeps the grid's shape, transforms each cell on its own and
      records exactly the pending cells, in row-major order. */
  lemma Pass1GridFacts(grid: Grid, step: Cell -> CellResult)
    ensures var res := Pass1Grid(grid, step);
      && SameShape(res.grid, grid)
      && (forall r, c :: 0 <= r < |grid| && 0 <= c < |grid[r]| ==> res.grid[r][c] == step(grid[r][c]).cell)
      && RecordsPending(res.pending, grid, step)
  {
    Pass1GridCells(grid, step);
    Pass1GridSound(grid, step);
    Pass1GridComplete(grid, step);
  }

  // ---------------------------------------------------------------------
  // Pass 2.

  /** Every key of `entries` has a dictionary value. */
  predicate KeysIn(entries: seq<Entry>, dict: map<string, string>) {
    forall i :: 0 <= i < |entries| ==> entries[i].key in dict
  }

  /** The inner loop of pass 2 for one pending cell: `cur` is the cell's
      current text and `stale` its pass-1 text, against which containment is
      tested. The value used is the dictionary's, i.e. the last row's. */
  function Resolve(cur: string, stale: string, entries: seq<Entry>, dict: map<string, string>,
                   ignore: seq<string>): string
    requires KeysIn(entries, dict)
    decreases |entries|
  {
    if |entries| == 0 then cur
    else
      var key := entries[0].key;
      var value := dict[key];
      var next := if value in ignore || !Contains(stale, key) then cur else ReplaceFirst(cur, key, value);
      Resolve(next, stale, entries[1..], dict, ignore)
  }

  /** The entries whose dictionary value is not ignored, in order. */
  function Unignored(entries: seq<Entry>, dict: map<string, string>, ignore: seq<string>): (r: seq<Entry>)
    requires KeysIn(entries, dict)
    ensures |r| <= |entries|
    ensures forall i :: 0 <= i < |r| ==> r[i] in entries && r[i].key in dict && dict[r[i].key] !in ignore
    ensures forall i :: 0 <= i < |entries| && dict[entries[i].key] !in ignore ==> entries[i] in r
  {
    if |entries| == 0 then []
    else
      var rest := Unignored(entries[1..], dict, ignore);
      assert forall i :: 1 <= i < |entries| ==> entries[i] == entries[1..][i - 1];
      if dict[entries[0].key] in ignore then rest else [entries[0]] + rest
  }

  /** `r` is the subsequence of `entries` at the strictly increasing
      positions `idx`. */
  predicate SelectedBy(r: seq<Entry>, entries: seq<Entry>, idx: seq<nat>) {
    && |idx| == |r|
    && (forall t :: 0 <= t < |idx| ==> idx[t] < |entries| && r[t] == entries[idx[t]])
    && (forall t, u :: 0 <= t < u < |idx| ==> idx[t] < idx[u])
  }

  /** The positions of `entries` whose dictionary value is not ignored. */
  predicate UnignoredPositions(idx: seq<nat>, entries: seq<Entry>, dict: map<string, string>, ignore: seq<string>)
    requires KeysIn(entries, dict)
  {
    forall i :: 0 <= i < |entries| ==> (i in idx <==> dict[entries[i].key] !in ignore)
  }

  /** `Unignored` keeps the entries whose value is not ignored, each once and
      in their original order: it is the subsequence at exactly those
      positions. */
  lemma UnignoredIsSubsequence(entries: seq<Entry>, dict: map<string, string>, ignore: seq<string>)
    requires KeysIn(entries, dict)
    ensures exists idx: seq<nat> ::
      SelectedBy(Unignored(entries, dict, ignore), entries, idx) && UnignoredPositions(idx, entries, dict, ignore)
  {
    var idx := UnignoredIndices(entries, dict, ignore);
  }

  /** The positions `Unignored` selects, built along its recursion. */
  lemma {:induction false} UnignoredIndices(entries: seq<Entry>, dict: map<string, string>, ignore: seq<string>)
    returns (idx: seq<nat>)
    requires KeysIn(entries, dict)
    ensures SelectedBy(Unignored(entries, dict, ignore), entries, idx)
    ensures UnignoredPositions(idx, entries, dict, ignore)
    decreases |entries|
  {
    if |entries| == 0 {
      idx := [];
    } else {
      var tail := entries[1..];
      assert KeysIn(tail, dict);
      var inner := UnignoredIndices(tail, dict, ignore);
      var rest := Unignored(tail, dict, ignore);
      var shifted := Shift(inner);
      ShiftSelection(rest, entries, inner);
      forall i | 1 <= i < |entries|
        ensures i in shifted <==> dict[entries[i].key] !in ignore
      {
        assert tail[i - 1] == entries[i];
      }
      if dict[entries[0].key] in ignore {
        idx := shifted;
      } else {
        idx := [0] + shifted;
        assert Unignored(entries, dict, ignore) == [entries[0]] + rest;
        ConsSelection(rest, entries, shifted);
      }
    }
  }

  /** Every position one further on. */
  function Shift(idx: seq<nat>): (r: seq<nat>)
    ensures |r| == |idx|
    ensures forall t :: 0 <= t < |idx| ==> r[t] == idx[t] + 1
  {
    seq(|idx|, t requires 0 <= t < |idx| => idx[t] + 1)
  }

  /** A selection from `entries[1..]` is a selection from `entries` at the
      shifted positions, none of which is 0. */
  lemma ShiftSelection(r: seq<Entry>, entries: seq<Entry>, idx: seq<nat>)
    requires |entries| > 0 && SelectedBy(r, entries[1..], idx)
    ensures SelectedBy(r, entries, Shift(idx))
    ensures 0 !in Shift(idx)
    ensures forall i :: 1 <= i < |entries| ==> (i in Shift(idx) <==> i - 1 in idx)
  {
    var sh := Shift(idx);
    forall t | 0 <= t < |sh|
      ensures sh[t] < |entries| && r[t] == entries[sh[t]]
    {
      assert entries[1..][idx[t]] == entries[idx[t] + 1];
    }
    forall i | 1 <= i < |entries|
      ensures i in sh <==> i - 1 in idx
    {
      if i - 1 in idx {
        var t :| 0 <= t < |idx| && idx[t] == i - 1;
        assert sh[t] == i;
      }
    }
  }

  /** Putting the first entry in front of a selection that avoids position 0. */
  lemma ConsSelection(r: seq<Entry>, entries: seq<Entry>, idx: seq<nat>)
    requires |entries| > 0 && SelectedBy(r, entries, idx) && 0 !in idx
    ensures SelectedBy([entries[0]] + r, entries, [0] + idx)
    ensures forall i :: 0 <= i < |entries| ==> (i in [0] + idx <==> i == 0 || i in idx)
  {
    var r' := [entries[0]] + r;
    var idx' := [0] + idx;
    forall t | 0 <= t < |idx'|
      ensures idx'[t] < |entries| && r'[t] == entries[idx'[t]]
    {
      if t > 0 {
        assert idx'[t] == idx[t - 1] && r'[t] == r[t - 1];
      }
    }
    forall t, u | 0 <= t < u < |idx'|
      ensures idx'[t] < idx'[u]
    {
      assert idx'[u] == idx[u - 1];
      if t > 0 {
        assert idx'[t] == idx[t - 1];
      } else {
        assert idx[u - 1] in idx;
      }
    }
  }

  /** Ignoring a value is the same as deleting from the sorted list every
      entry whose dictionary value it is: ignored entries never write. */
  lemma {:induction false} IgnoredEntriesInert(cur: string, stale: string, entries: seq<Entry>,
                                               dict: map<string, string>, ignore: seq<string>)
    requires KeysIn(entries, dict)
    ensures Resolve(cur, stale, entries, dict, ignore) == Resolve(cur, stale, Unignored(entries, dict, ignore), dict, [])
    decreases |entries|
  {
    if |entries| > 0 {
      var key := entries[0].key;
      var value := dict[key];
      var next := if value in ignore || !Contains(stale, key) then cur else ReplaceFirst(cur, key, value);
      IgnoredEntriesInert(next, stale, entries[1..], dict, ignore);
      var rest := Unignored(entries[1..], dict, ignore);
      if value !in ignore {
        assert Unignored(entries, dict, ignore) == [entries[0]] + rest;
        assert ([entries[0]] + rest)[1..] == rest;
      }
    }
  }

  /** When no key of the list both has a value that is not ignored and occurs
      in the pass-1 text, the inner loop leaves the cell alone. */
  lemma {:induction false} NothingApplicable(cur: string, stale: string, entries: seq<Entry>,
                                             dict: map<string, string>, ignore: seq<string>)
    requires KeysIn(entries, dict)
    requires forall i :: 0 <= i < |entries| ==> dict[entries[i].key] in ignore || !Contains(stale, entries[i].key)
    ensures Resolve(cur, stale, entries, dict, ignore) == cur
    decreases |entries|
  {
    if |entries| > 0 {
      assert forall i :: 0 <= i < |entries| - 1 ==> entries[1..][i] == entries[i + 1];
      NothingApplicable(cur, stale, entries[1..], dict, ignore);
    }
  }

  /** One pending record: the cell at its position gets the result of the
      inner loop, starting from the text currently in the grid. */
  function Pass2Step(grid: Grid, p: Pending, data: ReplaceData, ignore: seq<string>): (g: Grid)
    requires WellFormed(data)
    ensures SameShape(g, grid)
  {
    if InBounds(grid, p.row, p.col) && grid[p.row][p.col].Text? then
      var text := Resolve(grid[p.row][p.col].s, p.cell, data.sorted, data.dict, ignore);
      grid[p.row := grid[p.row][p.col := Text(text)]]
    else grid
  }

  /** The outer loop of pass 2, over the pending records in order. */
  function Pass2(grid: Grid, pend: seq<Pending>, data: ReplaceData, ignore: seq<string>): (g: Grid)
    requires WellFormed(data)
    ensures SameShape(g, grid)
    decreases |pend|
  {
    if |pend| == 0 then grid
    else Pass2(Pass2Step(grid, pend[0], data, ignore), pend[1..], data, ignore)
  }

  /** Pass 2 writes each pending cell once, with the inner loop run from its
      pass-1 text, and leaves every other cell alone. */
  lemma {:induction false} Pass2Effect(grid: Grid, pend: seq<Pending>, data: ReplaceData, ignore: seq<string>)
    requires WellFormed(data)
    requires forall k :: 0 <= k < |pend| ==>
      InBounds(grid, pend[k].row, pend[k].col) && grid[pend[k].row][pend[k].col] == Text(pend[k].cell)
    requires forall k, k' :: 0 <= k < k' < |pend| ==> Before(pend[k], pend[k'])
    ensures var g := Pass2(grid, pend, data, ignore);
      && (forall k :: 0 <= k < |pend| ==>
            && InBounds(g, pend[k].row, pend[k].col)
            && g[pend[k].row][pend[k].col]
                 == Text(Resolve(pend[k].cell, pend[k].cell, data.sorted, data.dict, ignore)))
      && (forall r: nat, c: nat :: InBounds(grid, r, c) && !PendingAt(pend, r, c) ==> g[r][c] == grid[r][c])
    decreases |pend|
  {
    if |pend| > 0 {
      var p := pend[0];
      var step := Pass2Step(grid, p, data, ignore);
      var rest := pend[1..];
      assert forall k :: 0 <= k < |rest| ==> rest[k] == pend[k + 1];
      assert forall k :: 0 <= k < |rest| ==> Before(p, rest[k]);
      assert forall k :: 0 <= k < |rest| ==> step[rest[k].row][rest[k].col] == grid[rest[k].row][rest[k].col];
      Pass2Effect(step, rest, data, ignore);
      var g := Pass2(step, rest, data, ignore);
      assert !PendingAt(rest, p.row, p.col);
      forall k | 0 <= k < |pend|
        ensures g[pend[k].row][pend[k].col]
          == Text(Resolve(pend[k].cell, pend[k].cell, data.sorted, data.dict, ignore))
      {
        if k > 0 {
          assert pend[k] == rest[k - 1];
        }
      }
    }
  }

  // ---------------------------------------------------------------------
  // The whole transformation.

  /** What `replaceExcel` makes of one cell: its pass-1 result, followed by
      the pass-2 inner loop when the cell is pending. */
  function FinalCell(cell: Cell, data: ReplaceData, ignore: seq<string>): Cell
    requires WellFormed(data)
  {
    var o := Pass1Cell(cell, data);
    if IsPending(o) then Text(Resolve(o.cell.s, o.cell.s, data.sorted, data.dict, ignore))
    else o.cell
  }

  /** A recorded cell is pending. */
  lemma RecordedIsPending(pend: seq<Pending>, grid: Grid, step: Cell -> CellResult, k: nat)
    requires RecordsPending(pend, grid, step) && k < |pend|
    ensures InBounds(grid, pend[k].row, pend[k].col)
    ensures IsPending(step(grid[pend[k].row][pend[k].col]))
  {
  }

  /** `FinalCell` through the pass-1 step. */
  lemma FinalOfStep(cell: Cell, data: ReplaceData, ignore: seq<string>)
    requires WellFormed(data)
    ensures var o := Pass1Step(data)(cell);
      FinalCell(cell, data, ignore) == if IsPending(o) then Text(Resolve(o.cell.s, o.cell.s, data.sorted, data.dict, ignore)) else o.cell
  {
  }

  /** The two passes, seen from one cell of the grid. */
  lemma TwoPassesCell(grid: Grid, data: ReplaceData, ignore: seq<string>, r: nat, c: nat)
    requires WellFormed(data) && InBounds(grid, r, c)
    ensures var p1 := Pass1Grid(grid, Pass1Step(data));
      var out := Pass2(p1.grid, p1.pending, data, ignore);
      InBounds(out, r, c) && out[r][c] == FinalCell(grid[r][c], data, ignore)
  {
    var step := Pass1Step(data);
    var p1 := Pass1Grid(grid, step);
    Pass1GridFacts(grid, step);
    Pass2Effect(p1.grid, p1.pending, data, ignore);
    var out := Pass2(p1.grid, p1.pending, data, ignore);
    var o := step(grid[r][c]);
    FinalOfStep(grid[r][c], data, ignore);
    assert p1.grid[r][c] == o.cell;
    if IsPending(o) {
      var k :| 0 <= k < |p1.pending| && p1.pending[k].row == r && p1.pending[k].col == c;
      assert o == CellResult(Text(p1.pending[k].cell), true);
      assert out[r][c] == Text(Resolve(o.cell.s, o.cell.s, data.sorted, data.dict, ignore));
    } else {
      forall k | 0 <= k < |p1.pending|
        ensures p1.pending[k].row != r || p1.pending[k].col != c
      {
        RecordedIsPending(p1.pending, grid, step, k);
      }
      assert out[r][c] == p1.grid[r][c];
    }
  }

  /** `replaceExcel`: the output has the input's shape and every cell is
      transformed on its own, as `FinalCell` says, whatever its neighbours,
      its position and the order in which pass 2 visits the pending cells. */
  function ReplaceExcel(grid: Grid, data: ReplaceData, ignore: seq<string>): (out: Grid)
    requires WellFormed(data)
    ensures SameShape(out, grid)
    ensures forall r, c :: 0 <= r < |grid| && 0 <= c < |grid[r]| ==>
      out[r][c] == FinalCell(grid[r][c], data, ignore)
  {
    var step := Pass1Step(data);
    var p1 := Pass1Grid(grid, step);
    Pass1GridCells(grid, step);
    var out := Pass2(p1.grid, p1.pending, data, ignore);
    assert forall r, c :: 0 <= r < |grid| && 0 <= c < |grid[r]| ==> out[r][c] == FinalCell(grid[r][c], data, ignore) by {
      forall r: nat, c: nat | InBounds(grid, r, c)
        ensures out[r][c] == FinalCell(grid[r][c], data, ignore)
      {
        TwoPassesCell(grid, data, ignore, r, c);
      }
    }
    out
  }

  /** A cell with a non-empty exact value ends up as that value. */
  lemma FinalExactHit(s: string, data: ReplaceData, ignore: seq<string>)
    requires WellFormed(data) && ExactHit(data.dict, s)
    ensures FinalCell(Text(s), data, ignore) == Text(data.dict[s])
  {
  }

  /** A cell that is neither an exact hit nor text with a comma ends up as it
      was: single-phrase cells are only ever matched whole. */
  lemma FinalPlainCell(cell: Cell, data: ReplaceData, ignore: seq<string>)
    requires WellFormed(data)
    requires cell.Text? ==> !ExactHit(data.dict, cell.s) && ',' !in cell.s
    ensures FinalCell(cell, data, ignore) == cell
  {
  }

  /** A compound cell whose every segment found a translation is not touched
      by pass 2: it is the join of the translations. */
  lemma FinalFullyTranslated(s: string, data: ReplaceData, ignore: seq<string>)
    requires WellFormed(data) && !ExactHit(data.dict, s) && ',' in s
    requires forall i :: 0 <= i < |Segments(s)| ==> TranslateSegment(data.sorted, Segments(s)[i]).Some?
    ensures FinalCell(Text(s), data, ignore) == Text(Join(Translated(data.sorted, Segments(s)), Separator))
  {
    CompoundCell(s, data);
  }

  /** A compound cell none of whose segments translates, whose raw segments
      carry no surrounding whitespace, and which contains no key with a value
      that is not ignored, comes out exactly as it went in. */
  lemma UntranslatableCellSurvives(s: string, data: ReplaceData, ignore: seq<string>)
    requires WellFormed(data) && !ExactHit(data.dict, s) && ',' in s
    requires forall k :: 0 <= k < |RawSegments(s)| ==> IsTrimmed(RawSegments(s)[k])
    requires forall i :: 0 <= i < |Segments(s)| ==> TranslateSegment(data.sorted, Segments(s)[i]).None?
    requires forall key :: key in data.dict && data.dict[key] !in ignore ==> !Contains(s, key)
    ensures FinalCell(Text(s), data, ignore) == Text(s)
  {
    var segs := Segments(s);
    TrimmedSegmentsRejoin(s);
    assert Translated(data.sorted, segs) == segs;
    CompoundCell(s, data);
    var o := Pass1Cell(Text(s), data);
    assert o.cell == Text(s);
    assert 0 < |segs| && TranslateSegment(data.sorted, segs[0]).None?;
    assert o.pending;
    FinalOfStep(Text(s), data, ignore);
    assert FinalCell(Text(s), data, ignore) == Text(Resolve(s, s, data.sorted, data.dict, ignore));
    forall i | 0 <= i < |data.sorted|
      ensures data.dict[data.sorted[i].key] in ignore || !Contains(s, data.sorted[i].key)
    {
      assert data.sorted[i].key in data.dict;
    }
    NothingApplicable(s, s, data.sorted, data.dict, ignore);
  }

  /** Pass 2 changes only pending cells: every cell pass 1 did not leave
      pending holds its pass-1 result in the output. */
  lemma OnlyPendingCellsChange(grid: Grid, data: ReplaceData, ignore: seq<string>)
    requires WellFormed(data)
    ensures forall r, c :: 0 <= r < |grid| && 0 <= c < |grid[r]| && !IsPending(Pass1Cell(grid[r][c], data)) ==>
      ReplaceExcel(grid, data, ignore)[r][c] == Pass1Cell(grid[r][c], data).cell
  {
  }

  /** When every dictionary value is ignored, pass 2 changes nothing and the
      output is the pass-1 result, cell by cell. */
  lemma AllValuesIgnored(grid: Grid, data: ReplaceData, ignore: seq<string>)
    requires WellFormed(data)
    requires forall key :: key in data.dict ==> data.dict[key] in ignore
    ensures forall r, c :: 0 <= r < |grid| && 0 <= c < |grid[r]| ==>
      ReplaceExcel(grid, data, ignore)[r][c] == Pass1Cell(grid[r][c], data).cell
  {
    forall r, c | 0 <= r < |grid| && 0 <= c < |grid[r]|
      ensures ReplaceExcel(grid, data, ignore)[r][c] == Pass1Cell(grid[r][c], data).cell
    {
      var o := Pass1Cell(grid[r][c], data);
      if IsPending(o) {
        NothingApplicable(o.cell.s, o.cell.s, data.sorted, data.dict, ignore);
      }
    }
  }

  /** Longer keys are applied first, and containment is tested against the
      pass-1 text while the replacement works on the current text: "abc" is
      replaced, and "ab", although present in the pass-1 text, no longer
      occurs. */
  lemma LongestKeyFirst()
    ensures Resolve("abcd", "abcd", [Entry("abc", "Y"), Entry("ab", "Z")], map["abc" := "Y", "ab" := "Z"], []) == "Yd"
  {
    assert IndexOf("abcd", "abc") == Some(0);
    assert IndexOf("abcd", "ab") == Some(0);
    assert "Yd"[..2][0] != "ab"[0];
    assert IndexOf("Yd"[1..], "ab") == None;
    assert IndexOf("Yd", "ab") == None;
  }

  /** An ignored value lets a shorter key through. */
  lemma IgnoredValueSkipped()
    ensures Resolve("abcd", "abcd", [Entry("abc", "Y"), Entry("ab", "Z")], map["abc" := "Y", "ab" := "Z"], ["Y"]) == "Zcd"
  {
  }

  /** A key occurring in the pass-1 text replaces its first occurrence in the
      current text, which may be a value written by an earlier key: here the
      "q" written for "p" is replaced rather than the original "q". */
  lemma EarlierValueRewritten()
    ensures Resolve("p q", "p q", [Entry("p", "q"), Entry("q", "r")], map["p" := "q", "q" := "r"], []) == "r q"
  {
  }
}
