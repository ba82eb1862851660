/**
 * The calculation main performs once the pattern and the mode have been read:
 * build the states, list them, tabulate them and, when the gate allows it,
 * reduce the table.
 */
module Pipeline {
  import opened Symbols
  import opened Graph
  import opened Builder
  import opened Catalog
  import opened Tables

  /** main's condition for optimize_table: more than one row, and no overlap or a don't care in the pattern. */
  predicate Optimises(pattern: seq<Sym>, mode: Mode, nstates: int)
  {
    nstates > 1 && (mode == NotOverlapping || DontCare in pattern)
  }

  /**
   * get_states_list, get_table and the gated reduction, with optimize_table's
   * flag accumulated over each pass (`Tables.Table.OptimizeTableAccumulated`).
   * The graph g has the labels of the construction and every transition obeys
   * the mode rule. Whatever the reduction merged, reading the table from row 0
   * gives, on every input of '0's and '1's, the exit flags of the state graph
   * from reset. When the reduction is not run the table is exactly get_table's;
   * when it is, no two rows are left equal.
   */
  method Calculate(pattern: seq<Sym>, mode: Mode) returns (table: Table, ghost g: seq<Node>, ghost order: seq<nat>)
    requires 1 <= |pattern| <= MaxSeq
    ensures Complete(g) && SuffixClosed(g) && Labelled(g, |pattern|) && Prefixed(g, mode, pattern)
    ensures Ruled(g, mode, pattern, 0, |g|)
    ensures |order| == |g| && Distinct(order) && Below(order, |g|)
    ensures order[0] == Reset && forall x: nat :: x < |g| ==> x in order
    ensures table.Valid() && table.nstates >= 1 && Closed(table.Contents())
    ensures forall input :: IsBits(input) ==> Run(table.Contents(), 0, input) == Outputs(pattern, g, Reset, input)
    ensures !Optimises(pattern, mode, |g|) ==> table.Contents() == TableSpec(pattern, g, order)
    ensures Optimises(pattern, mode, |g|) ==>
      forall a, b :: 0 <= a < b < table.nstates ==> !EqualRows(table.Contents(), a, b)
  {
    var sg, list := GetStatesList(pattern, mode);
    g := sg.nodes;
    assert Labelled(g, |pattern|) && Prefixed(g, mode, pattern) && Ruled(g, mode, pattern, 0, |g|);
    order := list.Contents();
    table := GetTable(pattern, list, sg.nodes);
    ghost var rows0 := table.Contents();
    assert table.nstates == |g|;
    TableReadsLikeGraph(pattern, g, order);
    if Optimises(pattern, mode, table.nstates) {
      ghost var merges := table.OptimizeTableAccumulated();
      ReplayPreservesRun(rows0, merges, table.Contents());
    }
  }
}
