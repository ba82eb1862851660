/**
 * The state table of table.c: one row per listed state with its next states and
 * exit flags for inputs '0' and '1' (get_table), and the reduction that merges
 * rows with equal transitions and outputs (equal_rows, merge_rows,
 * optimize_table).
 */
module Tables {
  import opened Symbols
  import opened Graph
  import opened Catalog

  /** A table row: the state's label, then next state and exit flag on '0' and on '1'. */
  datatype Row = Row(value: seq<Sym>, next0: int, exit0: bool, next1: int, exit1: bool)

  /**
   * The string get_table compares with the pattern for input b: b is written at
   * position 0 of a label starting with '-' (reset's "-" thus counts as no
   * symbol), and after the last symbol of any other label.
   */
  function WithInput(value: seq<Sym>, b: Sym): seq<Sym>
  {
    if |value| >= 1 && value[0] == DontCare then [b] + value[1..] else value + [b]
  }

  /** exit_b of a row labelled `value`: the recent input followed by b is the pattern. */
  predicate Exit(pattern: seq<Sym>, value: seq<Sym>, b: Sym)
  {
    Matches(pattern, WithInput(value, b))
  }

  /** list_index of a transition target; a NULL target is never found. */
  function NextIndex(list: seq<nat>, e: Option<nat>): int
  {
    match e
    case None => -1
    case Some(x) => IndexOf(list, x)
  }

  /** The row get_table writes for state s. */
  function RowSpec(pattern: seq<Sym>, g: seq<Node>, list: seq<nat>, s: nat): Row
    requires s < |g|
  {
    Row(g[s].value, NextIndex(list, g[s].left), Exit(pattern, g[s].value, Zero),
        NextIndex(list, g[s].right), Exit(pattern, g[s].value, One))
  }

  /** The table get_table builds: the rows of the listed states, in list order. */
  function TableSpec(pattern: seq<Sym>, g: seq<Node>, list: seq<nat>): seq<Row>
    requires Below(list, |g|)
  {
    seq(|list|, k requires 0 <= k < |list| => RowSpec(pattern, g, list, list[k]))
  }

  /** Every next state names a row of the table. */
  predicate Closed(rows: seq<Row>)
  {
    forall k :: 0 <= k < |rows| ==> 0 <= rows[k].next0 < |rows| && 0 <= rows[k].next1 < |rows|
  }

  /** A table built from a list without duplicates and closed under transitions has no dangling next state. */
  lemma TableClosed(pattern: seq<Sym>, g: seq<Node>, list: seq<nat>)
    requires Complete(g) && Below(list, |g|) && Distinct(list) && ChildrenListed(g, list)
    ensures Closed(TableSpec(pattern, g, list))
  {
    var rows := TableSpec(pattern, g, list);
    forall k | 0 <= k < |rows|
      ensures 0 <= rows[k].next0 < |rows| && 0 <= rows[k].next1 < |rows|
    {
      assert ChildrenOfListed(g, list, k);
    }
  }

  /** The next states of a row are the list positions of the state's transition targets. */
  lemma TableFollowsTransitions(pattern: seq<Sym>, g: seq<Node>, list: seq<nat>, k: nat)
    requires Complete(g) && Below(list, |g|) && Distinct(list) && ChildrenListed(g, list) && k < |list|
    ensures var row := TableSpec(pattern, g, list)[k];
      && 0 <= row.next0 < |list| && list[row.next0] == g[list[k]].left.value
      && 0 <= row.next1 < |list| && list[row.next1] == g[list[k]].right.value
  {
    assert ChildrenOfListed(g, list, k);
  }

  /** Reset's "-" contributes nothing: reset exits on b exactly for a one-symbol pattern accepting b. */
  lemma ResetExit(pattern: seq<Sym>, b: Sym)
    ensures Exit(pattern, [DontCare], b) <==> |pattern| == 1 && SymMatches(pattern[0], b)
  {
    assert WithInput([DontCare], b) == [b];
  }

  /** Any other state exits on b exactly when its label followed by b matches the pattern. */
  lemma StateExit(pattern: seq<Sym>, value: seq<Sym>, b: Sym)
    requires IsBits(value) && |value| >= 1
    ensures Exit(pattern, value, b) <==> Matches(pattern, value + [b])
  {
    assert value[0] != DontCare;
  }

  /** The exit flags read along an input from row s; anything but '0' takes the '1' column. */
  function Run(rows: seq<Row>, s: int, input: seq<Sym>): (r: seq<bool>)
    requires Closed(rows) && 0 <= s < |rows|
    ensures |r| == |input|
    decreases |input|
  {
    if input == [] then []
    else if input[0] == Zero then [rows[s].exit0] + Run(rows, rows[s].next0, input[1..])
    else [rows[s].exit1] + Run(rows, rows[s].next1, input[1..])
  }

  /** The exit flags the recogniser produces along an input from state s of the graph. */
  function Outputs(pattern: seq<Sym>, g: seq<Node>, s: nat, input: seq<Sym>): (r: seq<bool>)
    requires Complete(g) && s < |g| && IsBits(input)
    ensures |r| == |input|
    decreases |input|
  {
    if input == [] then []
    else
      var b := input[0];
      [Exit(pattern, g[s].value, b)] + Outputs(pattern, g, Child(g[s], b).value, input[1..])
  }

  /** Reading the table from a state's row gives the recogniser's own outputs from that state. */
  lemma {:induction false} TableRunIsOutputs(pattern: seq<Sym>, g: seq<Node>, list: seq<nat>, k: nat, input: seq<Sym>)
    requires Complete(g) && Below(list, |g|) && Distinct(list) && ChildrenListed(g, list) && k < |list|
    requires IsBits(input)
    ensures Closed(TableSpec(pattern, g, list))
    ensures Run(TableSpec(pattern, g, list), k, input) == Outputs(pattern, g, list[k], input)
    decreases |input|
  {
    TableClosed(pattern, g, list);
    if input != [] {
      var rows := TableSpec(pattern, g, list);
      var row := rows[k];
      TableFollowsTransitions(pattern, g, list, k);
      var n := if input[0] == Zero then row.next0 else row.next1;
      assert list[n] == Child(g[list[k]], input[0]).value;
      TableRunIsOutputs(pattern, g, list, n, input[1..]);
    }
  }

  /** Read from row 0, the table of a list that starts with reset gives the graph's outputs from reset. */
  lemma TableReadsLikeGraph(pattern: seq<Sym>, g: seq<Node>, list: seq<nat>)
    requires Complete(g) && Below(list, |g|) && Distinct(list) && ChildrenListed(g, list)
    requires |list| >= 1 && list[0] == Reset
    ensures Closed(TableSpec(pattern, g, list))
    ensures forall input :: IsBits(input) ==> Run(TableSpec(pattern, g, list), 0, input) == Outputs(pattern, g, Reset, input)
  {
    TableClosed(pattern, g, list);
    forall input | IsBits(input)
      ensures Run(TableSpec(pattern, g, list), 0, input) == Outputs(pattern, g, Reset, input)
    {
      TableRunIsOutputs(pattern, g, list, 0, input);
    }
  }

  /** equal_rows: same next states and same exit flags on both inputs; labels are ignored. */
  predicate EqualRows(rows: seq<Row>, i: int, j: int)
    requires 0 <= i < |rows| && 0 <= j < |rows|
  {
    && rows[i].next0 == rows[j].next0 && rows[i].exit0 == rows[j].exit0
    && rows[i].next1 == rows[j].next1 && rows[i].exit1 == rows[j].exit1
  }

  /** equal_rows is an equivalence on the rows of a table. */
  lemma EqualRowsEquivalence(rows: seq<Row>, i: int, j: int, k: int)
    requires 0 <= i < |rows| && 0 <= j < |rows| && 0 <= k < |rows|
    ensures EqualRows(rows, i, i)
    ensures EqualRows(rows, i, j) ==> EqualRows(rows, j, i)
    ensures EqualRows(rows, i, j) && EqualRows(rows, j, k) ==> EqualRows(rows, i, k)
  {
  }

  /** Equal rows produce the same exit flags on every input. */
  lemma EqualRowsSameRun(rows: seq<Row>, i: int, j: int, input: seq<Sym>)
    requires Closed(rows) && 0 <= i < |rows| && 0 <= j < |rows| && EqualRows(rows, i, j)
    ensures Run(rows, i, input) == Run(rows, j, input)
  {
  }

  function Max(a: nat, b: nat): nat
  {
    if a < b then b else a
  }

  /**
   * The label merge of merge_rows: where label j is defined and the labels
   * differ, row i gets '-'; positions past the end of label i count as
   * differing; the rest of label i is kept.
   */
  function MergeLabels(vi: seq<Sym>, vj: seq<Sym>): (r: seq<Sym>)
    ensures |r| == Max(|vi|, |vj|)
    ensures forall k :: 0 <= k < |vi| ==> SymMatches(r[k], vi[k])
    ensures forall k :: 0 <= k < |vj| ==> SymMatches(r[k], vj[k])
    ensures forall k :: 0 <= k < |vi| && (k >= |vj| || vi[k] == vj[k]) ==> r[k] == vi[k]
  {
    seq(Max(|vi|, |vj|), k requires 0 <= k < Max(|vi|, |vj|) =>
      if k < |vj| && (k >= |vi| || vi[k] != vj[k]) then DontCare else vi[k])
  }

  /** The example of merge_rows: "010" and "000" give "0-0". */
  lemma MergeLabelsExample()
    ensures MergeLabels([Zero, One, Zero], [Zero, Zero, Zero]) == [Zero, DontCare, Zero]
  {
    var r := MergeLabels([Zero, One, Zero], [Zero, Zero, Zero]);
    assert r[0] == Zero && r[1] == DontCare && r[2] == Zero;
  }

  /** The first renumbering pass of merge_rows: references to j go to i. */
  function Redirect(r: int, i: int, j: int): int
  {
    if r == j then i else r
  }

  /** The second renumbering pass: references above j move down by one. */
  function Shift(r: int, j: int): int
  {
    if r > j then r - 1 else r
  }

  /** Where a reference ends up after both passes. */
  function Renum(r: int, i: int, j: int): int
  {
    Shift(Redirect(r, i, j), j)
  }

  function RedirectRow(row: Row, i: int, j: int): Row
  {
    row.(next0 := Redirect(row.next0, i, j), next1 := Redirect(row.next1, i, j))
  }

  function ShiftRow(row: Row, j: int): Row
  {
    row.(next0 := Shift(row.next0, j), next1 := Shift(row.next1, j))
  }

  /** Renumbering maps the rows of a table onto the rows of the table without row j. */
  lemma RenumInRange(r: int, i: int, j: int, n: nat)
    requires 0 <= i < n && 0 <= j < n && i != j && 0 <= r < n
    ensures 0 <= Renum(r, i, j) < n - 1
    ensures Renum(j, i, j) == Renum(i, i, j)
    ensures r != j ==> Renum(r, i, j) == if r < j then r else r - 1
  {
  }

  /** The first renumbering pass over a whole table. */
  function RedirectRows(rows: seq<Row>, i: int, j: int): (r: seq<Row>)
    ensures |r| == |rows|
  {
    seq(|rows|, k requires 0 <= k < |rows| => RedirectRow(rows[k], i, j))
  }

  /** The second renumbering pass over a whole table. */
  function ShiftRows(rows: seq<Row>, j: int): (r: seq<Row>)
    ensures |r| == |rows|
  {
    seq(|rows|, k requires 0 <= k < |rows| => ShiftRow(rows[k], j))
  }

  /** The table merge_rows(i, j) leaves: label merged into row i, row j deleted, every reference renumbered. */
  function MergeRowsSpec(rows: seq<Row>, i: int, j: int): (r: seq<Row>)
    requires 0 <= i < |rows| && 0 <= j < |rows| && i != j
    ensures |r| == |rows| - 1
  {
    var merged := rows[i := rows[i].(value := MergeLabels(rows[i].value, rows[j].value))];
    var deleted := merged[..j] + merged[j + 1..];
    ShiftRows(RedirectRows(deleted, i, j), j)
  }

  /** After merge_rows every row but j keeps its label, one place lower past j; row i has the merged label. */
  lemma MergeRowsLabel(rows: seq<Row>, i: int, j: int, k: int)
    requires 0 <= i < |rows| && 0 <= j < |rows| && i != j && 0 <= k < |rows| && k != j
    ensures var r := MergeRowsSpec(rows, i, j);
      r[if k < j then k else k - 1].value == if k == i then MergeLabels(rows[i].value, rows[j].value) else rows[k].value
  {
  }

  /** The row for old row s sits at Renum(s) after the merge, with its references renumbered. */
  lemma MergedRow(rows: seq<Row>, i: int, j: int, s: int)
    requires 0 <= i < |rows| && 0 <= j < |rows| && i != j && 0 <= s < |rows| && EqualRows(rows, i, j)
    ensures 0 <= Renum(s, i, j) < |rows| - 1
    decreases if s == j then 1 else 0
    ensures var row := MergeRowsSpec(rows, i, j)[Renum(s, i, j)];
      && row.next0 == Renum(rows[s].next0, i, j) && row.exit0 == rows[s].exit0
      && row.next1 == Renum(rows[s].next1, i, j) && row.exit1 == rows[s].exit1
  {
    RenumInRange(s, i, j, |rows|);
    if s == j {
      MergedRow(rows, i, j, i);
    }
  }

  /** merge_rows of two distinct rows keeps every reference inside the smaller table. */
  lemma MergeKeepsClosed(rows: seq<Row>, i: int, j: int)
    requires Closed(rows) && 0 <= i < |rows| && 0 <= j < |rows| && i != j
    ensures Closed(MergeRowsSpec(rows, i, j))
  {
    var r := MergeRowsSpec(rows, i, j);
    forall k | 0 <= k < |r|
      ensures 0 <= r[k].next0 < |r| && 0 <= r[k].next1 < |r|
    {
      var src := if k < j then k else k + 1;
      RenumInRange(rows[src].next0, i, j, |rows|);
      RenumInRange(rows[src].next1, i, j, |rows|);
    }
  }

  /** Merging equal rows changes no exit flag along any input: state s behaves as Renum(s) did. */
  lemma {:induction false} MergePreservesRun(rows: seq<Row>, i: int, j: int, s: int, input: seq<Sym>)
    requires Closed(rows) && 0 <= i < |rows| && 0 <= j < |rows| && i != j && EqualRows(rows, i, j)
    requires 0 <= s < |rows|
    ensures Closed(MergeRowsSpec(rows, i, j)) && 0 <= Renum(s, i, j) < |rows| - 1
    ensures Run(MergeRowsSpec(rows, i, j), Renum(s, i, j), input) == Run(rows, s, input)
    decreases |input|
  {
    MergeKeepsClosed(rows, i, j);
    MergedRow(rows, i, j, s);
    if input != [] {
      var n := if input[0] == Zero then rows[s].next0 else rows[s].next1;
      MergePreservesRun(rows, i, j, n, input[1..]);
    }
  }

  /** A merge of a later row into an earlier one leaves row 0 at row 0, behaving as before. */
  lemma MergeKeepsResetRun(rows: seq<Row>, i: int, j: int)
    requires Closed(rows) && 0 <= i < j < |rows| && EqualRows(rows, i, j)
    ensures Closed(MergeRowsSpec(rows, i, j))
    ensures forall input :: Run(MergeRowsSpec(rows, i, j), 0, input) == Run(rows, 0, input)
  {
    MergeKeepsClosed(rows, i, j);
    forall input
      ensures Run(MergeRowsSpec(rows, i, j), 0, input) == Run(rows, 0, input)
    {
      MergePreservesRun(rows, i, j, 0, input);
    }
  }

  /** One merge performed by optimize_table: row j folded into row i. */
  datatype Merge = Merge(i: int, j: int)

  /**
   * The table after the merges ms, each of an earlier row i with a later row j
   * that equal_rows reported equal at that point; None if some merge is not one.
   */
  function Replay(rows: seq<Row>, ms: seq<Merge>): Option<seq<Row>>
    decreases |ms|
  {
    if ms == [] then Some(rows)
    else match Replay(rows, ms[..|ms| - 1])
      case None => None
      case Some(r) =>
        var m := ms[|ms| - 1];
        if 0 <= m.i < m.j < |r| && EqualRows(r, m.i, m.j) then Some(MergeRowsSpec(r, m.i, m.j)) else None
  }

  /** Replaying one more valid merge performs it on the table replayed so far. */
  lemma ReplayStep(rows: seq<Row>, ms: seq<Merge>, r: seq<Row>, i: int, j: int)
    requires Replay(rows, ms) == Some(r) && 0 <= i < j < |r| && EqualRows(r, i, j)
    ensures Replay(rows, ms + [Merge(i, j)]) == Some(MergeRowsSpec(r, i, j))
  {
    assert (ms + [Merge(i, j)])[..|ms|] == ms;
  }

  /**
   * Every replayed reduction removes one row per merge, keeps the table closed
   * and leaves the exit flags read from row 0 (reset) unchanged on every input.
   */
  lemma {:induction false} ReplayPreservesRun(rows: seq<Row>, ms: seq<Merge>, r: seq<Row>)
    requires Closed(rows) && |rows| >= 1 && Replay(rows, ms) == Some(r)
    ensures |r| == |rows| - |ms| && |r| >= 1 && Closed(r)
    ensures forall input :: Run(r, 0, input) == Run(rows, 0, input)
    decreases |ms|
  {
    if ms != [] {
      var p := Replay(rows, ms[..|ms| - 1]).value;
      ReplayPreservesRun(rows, ms[..|ms| - 1], p);
      var m := ms[|ms| - 1];
      MergeKeepsResetRun(p, m.i, m.j);
    }
  }

  /**
   * The table the j loop of optimize_table leaves for row i, from place j on:
   * a later row equal to row i is merged into it and place j is examined
   * again; otherwise the loop moves on to j + 1.
   */
  function MergeFrom(rows: seq<Row>, i: int, j: int): (r: seq<Row>)
    requires 0 <= i < j && i < |rows|
    ensures i < |r| <= |rows|
    decreases |rows| - j
  {
    if j >= |rows| then rows
    else if EqualRows(rows, i, j) then MergeFrom(MergeRowsSpec(rows, i, j), i, j)
    else MergeFrom(rows, i, j + 1)
  }

  /**
   * optimize_table's for loop from row i on, and the flag it leaves. The flag
   * is cleared at every i, so it ends up telling whether the last i merged.
   */
  function PassFrom(rows: seq<Row>, i: nat, flag: bool): (r: (seq<Row>, bool))
    ensures |r.0| <= |rows|
    ensures i + 1 < |rows| && r.1 ==> |r.0| < |rows|
    decreases |rows| - i
  {
    if i + 1 >= |rows| then (rows, flag)
    else
      var next := MergeFrom(rows, i, i + 1);
      PassFrom(next, i + 1, |next| < |rows|)
  }

  /** One step of the for loop over i, and its end. */
  lemma PassFromSteps(rows: seq<Row>, i: nat, flag: bool)
    ensures i + 1 >= |rows| ==> PassFrom(rows, i, flag) == (rows, flag)
    ensures i + 1 < |rows| ==>
      PassFrom(rows, i, flag) == PassFrom(MergeFrom(rows, i, i + 1), i + 1, |MergeFrom(rows, i, i + 1)| < |rows|)
  {
  }

  /**
   * optimize_table: passes while the flag is set. The second component is true
   * where the source spins forever: the flag is set but at most one row is left.
   */
  function Optimized(rows: seq<Row>): (r: (seq<Row>, bool))
    ensures |r.0| <= |rows|
    decreases |rows|
  {
    if |rows| <= 1 then (rows, true)
    else
      var p := PassFrom(rows, 0, true);
      if p.1 then Optimized(p.0) else (p.0, false)
  }

  /**
   * optimize_table as written can stop with equal rows left. On this table the
   * pass at i = 1 merges row 4 into row 1, which points row 2's next0 at row 1
   * and makes row 2 equal to row 0; the i = 2 round merges nothing and clears
   * the flag, so the loop ends with rows 0 and 2 still equal.
   */
  lemma OptimizeLeavesEqualRows()
    ensures var rows := [Row([DontCare], 1, false, 0, false), Row([One], 0, true, 0, false),
                         Row([Zero], 4, false, 0, false), Row([One, One], 3, false, 3, true),
                         Row([Zero, One], 0, true, 0, false)];
      var r := Optimized(rows);
      && !r.1 && |r.0| == 4 && EqualRows(r.0, 0, 2)
  {
    var t5 := [Row([DontCare], 1, false, 0, false), Row([One], 0, true, 0, false),
               Row([Zero], 4, false, 0, false), Row([One, One], 3, false, 3, true),
               Row([Zero, One], 0, true, 0, false)];
    assert MergeFrom(t5, 0, 1) == t5 by {
      assert MergeFrom(t5, 0, 4) == MergeFrom(t5, 0, 5) == t5;
      assert MergeFrom(t5, 0, 2) == MergeFrom(t5, 0, 3) == MergeFrom(t5, 0, 4);
    }
    assert PassFrom(t5, 0, true) == PassFrom(t5, 1, false);
    var t4 := MergeRowsSpec(t5, 1, 4);
    assert |t4| == 4;
    assert t4[0].next0 == 1 && t4[0].exit0 == false && t4[0].next1 == 0 && t4[0].exit1 == false;
    assert t4[2].next0 == 1 && t4[2].exit0 == false && t4[2].next1 == 0 && t4[2].exit1 == false;
    assert t4[3].next0 == 3 && t4[3].exit1 == true;
    assert MergeFrom(t5, 1, 2) == t4 by {
      assert MergeFrom(t4, 1, 4) == t4;
      assert MergeFrom(t5, 1, 4) == MergeFrom(t4, 1, 4);
      assert MergeFrom(t5, 1, 2) == MergeFrom(t5, 1, 3) == MergeFrom(t5, 1, 4);
    }
    assert PassFrom(t5, 1, false) == PassFrom(t4, 2, true);
    assert MergeFrom(t4, 2, 3) == t4 by {
      assert MergeFrom(t4, 2, 3) == MergeFrom(t4, 2, 4);
    }
    assert PassFrom(t4, 2, true) == PassFrom(t4, 3, false) == (t4, false);
  }

  /** ms is `before` followed by merges into row i only. */
  predicate MergesInto(before: seq<Merge>, ms: seq<Merge>, i: int)
  {
    |before| <= |ms| && ms[..|before|] == before && forall k :: |before| <= k < |ms| ==> ms[k].i == i
  }

  /** One step of the j loop: merge an equal row j and look at place j again, or move on. */
  lemma MergeFromSteps(rows: seq<Row>, i: int, j: int)
    requires 0 <= i < j < |rows|
    ensures EqualRows(rows, i, j) ==> MergeFrom(rows, i, j) == MergeFrom(MergeRowsSpec(rows, i, j), i, j)
    ensures !EqualRows(rows, i, j) ==> MergeFrom(rows, i, j) == MergeFrom(rows, i, j + 1)
  {
  }

  /** The merges the j loop of optimize_table performs for row i from place j on, in order. */
  ghost function MergesFrom(rows: seq<Row>, i: int, j: int): seq<Merge>
    requires 0 <= i < j && i < |rows|
    decreases |rows| - j
  {
    if j >= |rows| then []
    else if EqualRows(rows, i, j) then [Merge(i, j)] + MergesFrom(MergeRowsSpec(rows, i, j), i, j)
    else MergesFrom(rows, i, j + 1)
  }

  /** The j loop removes one row per merge. */
  lemma {:induction false} MergesFromCount(rows: seq<Row>, i: int, j: int)
    requires 0 <= i < j && i < |rows|
    ensures |MergesFrom(rows, i, j)| == |rows| - |MergeFrom(rows, i, j)|
    decreases |rows| - j
  {
    if j < |rows| {
      if EqualRows(rows, i, j) {
        MergesFromCount(MergeRowsSpec(rows, i, j), i, j);
      } else {
        MergesFromCount(rows, i, j + 1);
      }
    }
  }

  /** The j loop's table is the replay of its merges. */
  lemma {:induction false} MergeFromReplay(r0: seq<Row>, before: seq<Merge>, rows: seq<Row>, i: int, j: int)
    requires 0 <= i < j && i < |rows| && Replay(r0, before) == Some(rows)
    ensures Replay(r0, before + MergesFrom(rows, i, j)) == Some(MergeFrom(rows, i, j))
    decreases |rows| - j
  {
    if j >= |rows| {
      assert before + MergesFrom(rows, i, j) == before;
    } else if EqualRows(rows, i, j) {
      var next := MergeRowsSpec(rows, i, j);
      ReplayStep(r0, before, rows, i, j);
      MergeFromReplay(r0, before + [Merge(i, j)], next, i, j);
      ReplayRegroup(r0, before, Merge(i, j), MergesFrom(next, i, j), MergeFrom(next, i, j));
    } else {
      MergeFromReplay(r0, before, rows, i, j + 1);
    }
  }

  /** Replaying one merge and then more is replaying the merge list it heads. */
  lemma ReplayRegroup(r0: seq<Row>, before: seq<Merge>, m: Merge, rest: seq<Merge>, r: seq<Row>)
    requires Replay(r0, before + [m] + rest) == Some(r)
    ensures Replay(r0, before + ([m] + rest)) == Some(r)
  {
    assert before + [m] + rest == before + ([m] + rest);
  }

  /** Every merge of the j loop for row i is into row i. */
  lemma {:induction false} MergesFromInto(rows: seq<Row>, i: int, j: int)
    requires 0 <= i < j && i < |rows|
    ensures forall k :: 0 <= k < |MergesFrom(rows, i, j)| ==> MergesFrom(rows, i, j)[k].i == i
    decreases |rows| - j
  {
    if j < |rows| {
      if EqualRows(rows, i, j) {
        MergesFromInto(MergeRowsSpec(rows, i, j), i, j);
      } else {
        MergesFromInto(rows, i, j + 1);
      }
    }
  }

  /** When the j loop removes no row, it changed nothing and no row from place j on equals row i. */
  lemma {:induction false} MergeFromUnchanged(rows: seq<Row>, i: int, j: int)
    requires 0 <= i < j && i < |rows| && |MergeFrom(rows, i, j)| == |rows|
    ensures MergeFrom(rows, i, j) == rows
    ensures forall m :: j <= m < |rows| ==> !EqualRows(rows, i, m)
    decreases |rows| - j
  {
    if j < |rows| {
      if EqualRows(rows, i, j) {
        assert false;
      } else {
        MergeFromUnchanged(rows, i, j + 1);
      }
    }
  }

  /** `before` followed by merges into row i only is a MergesInto extension. */
  lemma AppendMergesInto(before: seq<Merge>, more: seq<Merge>, i: int)
    requires forall k :: 0 <= k < |more| ==> more[k].i == i
    ensures MergesInto(before, before + more, i)
  {
    assert (before + more)[..|before|] == before;
  }

  /**
   * The merge log of the j loop for row i started on `rows`: replaying it
   * after `before` yields the loop's result, it only merges into row i, one
   * merge per removed row, and it is empty exactly when no later row equals
   * row i.
   */
  lemma MergeIntoLog(r0: seq<Row>, before: seq<Merge>, rows: seq<Row>, i: int, result: seq<Row>) returns (ms: seq<Merge>)
    requires 0 <= i < |rows| && Replay(r0, before) == Some(rows) && result == MergeFrom(rows, i, i + 1)
    ensures Replay(r0, ms) == Some(result)
    ensures MergesInto(before, ms, i) && |ms| - |before| == |rows| - |result|
    ensures |result| == |rows| ==> ms == before && result == rows && forall m :: i < m < |rows| ==> !EqualRows(rows, i, m)
  {
    ms := before + MergesFrom(rows, i, i + 1);
    MergeFromReplay(r0, before, rows, i, i + 1);
    MergesFromCount(rows, i, i + 1);
    MergesFromInto(rows, i, i + 1);
    AppendMergesInto(before, MergesFrom(rows, i, i + 1), i);
    if |MergeFrom(rows, i, i + 1)| == |rows| {
      MergeFromUnchanged(rows, i, i + 1);
      assert ms == before;
    }
  }

  /** ms starts with `before`. */
  predicate Extends(before: seq<Merge>, ms: seq<Merge>)
  {
    |before| <= |ms| && ms[..|before|] == before
  }

  lemma ExtendsTrans(a: seq<Merge>, b: seq<Merge>, c: seq<Merge>)
    requires Extends(a, b) && Extends(b, c)
    ensures Extends(a, c)
  {
    assert c[..|a|] == c[..|b|][..|a|];
  }

  /**
   * Appending the merges of row i to a pass's log: the log still extends
   * `before`, every merge is into a row up to i, and one is into i exactly
   * when the step merged anything.
   */
  lemma PassLogStep(before: seq<Merge>, prev: seq<Merge>, ms: seq<Merge>, i: int)
    requires Extends(before, prev) && MergesInto(prev, ms, i)
    requires forall k :: |before| <= k < |prev| ==> prev[k].i < i
    ensures Extends(before, ms)
    ensures forall k :: |before| <= k < |ms| ==> ms[k].i < i + 1
    ensures |ms| > |prev| <==> exists k :: |before| <= k < |ms| && ms[k].i == i
  {
    ExtendsTrans(before, prev, ms);
    assert forall k :: |before| <= k < |prev| ==> ms[k] == prev[k];
    if |ms| > |prev| {
      assert ms[|prev|].i == i;
    }
  }

  /** The table: a fixed-size array of rows of which the first nstates are in use. */
  class Table {
    var nstates: int
    const rows: array<Row>

    ghost predicate Valid()
      reads this
    {
      0 <= nstates <= rows.Length
    }

    function Contents(): seq<Row>
      reads this, rows
      requires Valid()
    {
      rows[..nstates]
    }

    /** A table of n rows, to be filled by get_table. */
    constructor (n: nat)
      ensures Valid() && nstates == n && rows.Length == n && fresh(rows)
    {
      nstates := n;
      rows := new Row[n];
    }

    /** The label loop of merge_rows: row i's label becomes the merge of labels i and j. */
    method MergeLabelRow(i: int, j: int)
      requires Valid() && 0 <= i < nstates && 0 <= j < nstates
      modifies rows
      ensures Contents() == old(Contents())[i := old(Contents())[i].(value := MergeLabels(old(rows[i].value), old(rows[j].value)))]
    {
      var vi := rows[i].value;
      var vj := rows[j].value;
      var v := vi;
      var k := 0;
      while k < |vj|
        invariant 0 <= k <= |vj|
        invariant |v| == Max(|vi|, k)
        invariant forall m :: 0 <= m < |v| ==> v[m] == if m < k && (m >= |vi| || vi[m] != vj[m]) then DontCare else vi[m]
      {
        if k >= |v| {
          v := v + [DontCare];
        } else if v[k] != vj[k] {
          v := v[k := DontCare];
        }
        k := k + 1;
      }
      assert v == MergeLabels(vi, vj);
      rows[i] := rows[i].(value := v);
    }

    /** The deletion loop of merge_rows: rows j+1 .. nstates-1 move down by one. */
    method DeleteRow(j: int)
      requires Valid() && 0 <= j < nstates
      modifies rows
      ensures rows[..nstates - 1] == old(Contents())[..j] + old(Contents())[j + 1..]
    {
      var pos := j;
      while pos < nstates - 1
        invariant j <= pos <= nstates - 1
        invariant forall m :: 0 <= m < j ==> rows[m] == old(rows[m])
        invariant forall m :: j <= m < pos ==> rows[m] == old(rows[m + 1])
        invariant forall m :: pos < m < nstates ==> rows[m] == old(rows[m])
      {
        rows[pos] := rows[pos + 1];
        pos := pos + 1;
      }
      assert forall m :: 0 <= m < nstates - 1 ==> rows[m] == (old(Contents())[..j] + old(Contents())[j + 1..])[m];
    }

    /** The first renumbering loop of merge_rows: references to j now go to i. */
    method RedirectRefs(i: int, j: int)
      requires Valid()
      modifies rows
      ensures Contents() == RedirectRows(old(Contents()), i, j)
    {
      var k := 0;
      while k < nstates
        invariant 0 <= k <= nstates
        invariant forall m :: 0 <= m < k ==> rows[m] == RedirectRow(old(rows[m]), i, j)
        invariant forall m :: k <= m < nstates ==> rows[m] == old(rows[m])
      {
        if rows[k].next0 == j {
          rows[k] := rows[k].(next0 := i);
        }
        if rows[k].next1 == j {
          rows[k] := rows[k].(next1 := i);
        }
        k := k + 1;
      }
    }

    /** The second renumbering loop of merge_rows: references above j move down by one. */
    method ShiftRefs(j: int)
      requires Valid()
      modifies rows
      ensures Contents() == ShiftRows(old(Contents()), j)
    {
      var k := 0;
      while k < nstates
        invariant 0 <= k <= nstates
        invariant forall m :: 0 <= m < k ==> rows[m] == ShiftRow(old(rows[m]), j)
        invariant forall m :: k <= m < nstates ==> rows[m] == old(rows[m])
      {
        if rows[k].next0 > j {
          rows[k] := rows[k].(next0 := rows[k].next0 - 1);
        }
        if rows[k].next1 > j {
          rows[k] := rows[k].(next1 := rows[k].next1 - 1);
        }
        k := k + 1;
      }
    }

    /**
     * merge_rows: merge label j into label i, shift rows j+1.. down over row j,
     * then renumber every reference in two passes.
     */
    method MergeRows(i: int, j: int)
      requires Valid() && 0 <= i < nstates && 0 <= j < nstates && i != j
      modifies this, rows
      ensures Valid() && nstates == old(nstates) - 1
      ensures Contents() == MergeRowsSpec(old(Contents()), i, j)
    {
      MergeLabelRow(i, j);
      DeleteRow(j);
      nstates := nstates - 1;
      RedirectRefs(i, j);
      ShiftRefs(j);
    }

    /**
     * The j loop of optimize_table for one i: every later row equal to row i
     * is merged into it, and the row that moves into place j is examined
     * again. `merged` is the value the loop leaves in the flag.
     */
    method MergeInto(i: int) returns (merged: bool)
      requires Valid() && 0 <= i < nstates
      modifies this, rows
      ensures Valid() && i < nstates <= old(nstates)
      ensures Contents() == MergeFrom(old(Contents()), i, i + 1)
      ensures merged <==> nstates < old(nstates)
      ensures !merged ==> forall m :: i < m < nstates ==> !EqualRows(Contents(), i, m)
    {
      ghost var start := Contents();
      merged := false;
      var j := i + 1;
      while j < nstates
        invariant Valid() && i + 1 <= j <= nstates <= old(nstates)
        invariant MergeFrom(Contents(), i, j) == MergeFrom(start, i, i + 1)
        invariant merged <==> nstates < old(nstates)
        decreases nstates - j
      {
        MergeFromSteps(Contents(), i, j);
        if EqualRows(Contents(), i, j) {
          merged := true;
          MergeRows(i, j);
          j := j - 1;
        }
        j := j + 1;
      }
      if !merged {
        MergeFromUnchanged(start, i, i + 1);
      }
    }

    /**
     * One pass of optimize_table's for loop over i. The flag is cleared at
     * every i, so `merged` tells whether the last i, `lastI`, merged anything:
     * every merge of the pass is into a row up to lastI, and the flag is set
     * exactly when one of them is into lastI.
     */
    method Pass(ghost r0: seq<Row>, ghost before: seq<Merge>) returns (merged: bool, ghost ms: seq<Merge>, ghost lastI: int)
      requires Valid() && nstates >= 2 && Replay(r0, before) == Some(Contents())
      modifies this, rows
      ensures Valid() && Replay(r0, ms) == Some(Contents())
      ensures (Contents(), merged) == PassFrom(old(Contents()), 0, true)
      ensures Extends(before, ms) && |ms| - |before| == old(nstates) - nstates
      ensures 0 <= lastI < nstates && nstates - 2 <= lastI
      ensures forall k :: |before| <= k < |ms| ==> ms[k].i <= lastI
      ensures merged <==> exists k :: |before| <= k < |ms| && ms[k].i == lastI
      ensures !merged ==> nstates >= 2 && !EqualRows(Contents(), nstates - 2, nstates - 1)
    {
      merged := true;
      ms := before;
      lastI := 0;
      var i := 0;
      while i < nstates - 1
        invariant Valid() && Replay(r0, ms) == Some(Contents())
        invariant PassFrom(Contents(), i, merged) == PassFrom(old(Contents()), 0, true)
        invariant Extends(before, ms) && |ms| - |before| == old(nstates) - nstates
        invariant 0 <= i && nstates <= old(nstates)
        invariant i == 0 ==> nstates == old(nstates) && merged && ms == before
        invariant i > 0 ==> lastI == i - 1 && i <= nstates
        invariant forall k :: |before| <= k < |ms| ==> ms[k].i < i
        invariant i > 0 ==> (merged <==> exists k :: |before| <= k < |ms| && ms[k].i == i - 1)
        invariant i > 0 && !merged ==> i <= nstates - 1 && !EqualRows(Contents(), i - 1, nstates - 1)
      {
        ghost var prev := ms;
        ghost var cur := Contents();
        PassFromSteps(cur, i, merged);
        merged := MergeInto(i);
        ms := MergeIntoLog(r0, prev, cur, i, Contents());
        PassLogStep(before, prev, ms, i);
        lastI := i;
        i := i + 1;
      }
      PassFromSteps(Contents(), i, merged);
    }

    /**
     * optimize_table: passes over the table while the last i of a pass merged
     * rows. Where the source spins forever (another pass is due but at most
     * one row is left, so the pass is empty) the model returns with `hangs` set.
     */
    method OptimizeTable() returns (hangs: bool, ghost merges: seq<Merge>)
      requires Valid()
      modifies this, rows
      ensures Valid() && Replay(old(Contents()), merges) == Some(Contents())
      ensures (Contents(), hangs) == Optimized(old(Contents()))
      ensures hangs ==> nstates <= 1
      ensures !hangs ==> nstates >= 2 && !EqualRows(Contents(), nstates - 2, nstates - 1)
    {
      hangs := false;
      merges := [];
      ghost var r0 := Contents();
      var equivalentRows := true;
      while equivalentRows
        invariant Valid() && Replay(r0, merges) == Some(Contents())
        invariant equivalentRows ==> Optimized(Contents()) == Optimized(r0)
        invariant !equivalentRows ==> (Contents(), false) == Optimized(r0)
        invariant !equivalentRows ==> nstates >= 2 && !EqualRows(Contents(), nstates - 2, nstates - 1)
        decreases nstates, equivalentRows
      {
        if nstates <= 1 {
          hangs := true;
          return;
        }
        ghost var lastI;
        equivalentRows, merges, lastI := Pass(r0, merges);
      }
    }

    /**
     * The pass optimize_table evidently intends: the flag is cleared once, before
     * the pass, and any merge at any i sets it. A pass that leaves it clear
     * changed nothing and found no two equal rows.
     */
    method PassAccumulated(ghost r0: seq<Row>, ghost before: seq<Merge>) returns (merged: bool, ghost ms: seq<Merge>)
      requires Valid() && Replay(r0, before) == Some(Contents())
      modifies this, rows
      ensures Valid() && Replay(r0, ms) == Some(Contents())
      ensures nstates <= old(nstates) && (merged <==> nstates < old(nstates))
      ensures !merged ==> Contents() == old(Contents())
      ensures !merged ==> forall a, b :: 0 <= a < b < nstates ==> !EqualRows(Contents(), a, b)
    {
      merged := false;
      ms := before;
      var i := 0;
      while i < nstates - 1
        invariant Valid() && Replay(r0, ms) == Some(Contents())
        invariant 0 <= i && nstates <= old(nstates)
        invariant merged <==> nstates < old(nstates)
        invariant !merged ==> Contents() == old(Contents()) && ms == before
        invariant !merged ==> forall a, b :: 0 <= a < i && a < b < nstates ==> !EqualRows(Contents(), a, b)
      {
        ghost var cur := Contents();
        var m := MergeInto(i);
        ms := MergeIntoLog(r0, ms, cur, i, Contents());
        merged := merged || m;
        i := i + 1;
      }
    }

    /**
     * The reduction with the pass above: it always terminates, and on exit no
     * two rows of the table are equal.
     */
    method OptimizeTableAccumulated() returns (ghost merges: seq<Merge>)
      requires Valid()
      modifies this, rows
      ensures Valid() && Replay(old(Contents()), merges) == Some(Contents())
      ensures forall a, b :: 0 <= a < b < nstates ==> !EqualRows(Contents(), a, b)
    {
      merges := [];
      ghost var r0 := Contents();
      var equivalentRows := true;
      while equivalentRows
        invariant Valid() && Replay(r0, merges) == Some(Contents())
        invariant !equivalentRows ==> forall a, b :: 0 <= a < b < nstates ==> !EqualRows(Contents(), a, b)
        decreases nstates, equivalentRows
      {
        equivalentRows, merges := PassAccumulated(r0, merges);
      }
    }
  }

  /** The body of get_table's loop: the row of listed state s. */
  method MakeRow(pattern: seq<Sym>, list: StatesList, g: seq<Node>, s: nat) returns (row: Row)
    requires list.Valid() && s < |g|
    ensures row == RowSpec(pattern, g, list.Contents(), s)
  {
    var value := g[s].value;
    var length := if |value| >= 1 && value[0] == DontCare then 0 else |value|;
    var next0 := -1;
    if g[s].left.Some? {
      next0 := list.ListIndex(g[s].left.value);
    }
    var effective := if length < |value| then value[length := Zero] else value + [Zero];
    assert effective == WithInput(value, Zero);
    var exit0 := ValuesCmp(pattern, effective);
    var next1 := -1;
    if g[s].right.Some? {
      next1 := list.ListIndex(g[s].right.value);
    }
    effective := if length < |value| then value[length := One] else value + [One];
    assert effective == WithInput(value, One);
    var exit1 := ValuesCmp(pattern, effective);
    row := Row(value, next0, exit0 == 0, next1, exit1 == 0);
  }

  /**
   * get_table: one row per listed state, in list order, with its label, the
   * list positions of its targets and the valuescmp tests of label + '0' and
   * label + '1' (reset's "-" counting as no symbol).
   */
  method GetTable(pattern: seq<Sym>, list: StatesList, g: seq<Node>) returns (table: Table)
    requires list.Valid() && Below(list.Contents(), |g|)
    ensures fresh(table) && fresh(table.rows) && table.Valid() && table.nstates == list.nstates
    ensures table.Contents() == TableSpec(pattern, g, list.Contents())
  {
    table := new Table(list.nstates);
    var i := 0;
    while i < table.nstates
      invariant 0 <= i <= table.nstates && table.nstates == list.nstates == table.rows.Length
      invariant forall k :: 0 <= k < i ==> table.rows[k] == RowSpec(pattern, g, list.Contents(), list.Contents()[k])
    {
      assert list.states[i] == list.Contents()[i];
      var row := MakeRow(pattern, list, g, list.states[i]);
      table.rows[i] := row;
      i := i + 1;
    }
  }
}
