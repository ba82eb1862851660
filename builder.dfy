/**
 * Construction of the recogniser (create_states, add_state_to_graph,
 * find_match in fsm.c): states are appended to an arena owned by one
 * StateGraph object, and the transitions of existing states are set in place.
 */
module Builder {
  import opened Symbols
  import opened Graph

  /** Reset carries "-"; every other state a label of '0'/'1' shorter than the pattern. */
  ghost predicate Labelled(g: seq<Node>, len: nat)
  {
    |g| >= 1 && g[0].value == [DontCare] &&
    forall k :: 1 <= k < |g| ==> IsBits(g[k].value) && 1 <= |g[k].value| < len
  }

  /** State k has both transitions set, and each leads where the mode rule for its label allows. */
  ghost predicate StateRuled(g: seq<Node>, mode: Mode, pattern: seq<Sym>, k: nat)
    requires WellFormed(g) && k < |g|
  {
    && g[k].left.Some? && g[k].right.Some?
    && EdgeRule(g, 0, mode, pattern, PathLabel(g, k), Zero, g[k].left.value)
    && EdgeRule(g, 0, mode, pattern, PathLabel(g, k), One, g[k].right.value)
  }

  /** The states lo..hi-1 are finished: both transitions set by the mode rule. */
  ghost predicate Ruled(g: seq<Node>, mode: Mode, pattern: seq<Sym>, lo: nat, hi: nat)
    requires WellFormed(g) && hi <= |g|
  {
    forall k :: lo <= k < hi ==> StateRuled(g, mode, pattern, k)
  }

  /** In the overlapping modes every state but reset carries a prefix the pattern accepts. */
  ghost predicate Prefixed(g: seq<Node>, mode: Mode, pattern: seq<Sym>)
  {
    mode != NotOverlapping ==> forall k :: 1 <= k < |g| ==> PrefixMatches(pattern, g[k].value, |g[k].value|)
  }

  /** The invariant of the arena between two steps of the construction. */
  ghost predicate GraphInv(g: seq<Node>, parent: seq<nat>, len: nat)
  {
    && WellFormed(g)
    && |parent| == |g|
    && Labelled(g, len)
    && SuffixClosed(g)
    && forall q :: 1 <= q < |g| ==> TreeLinked(g, parent, q)
  }

  /** What create_states does with an extension value + b of a state's label. */
  datatype Choice = ToReset | Grow | Fallback

  /**
   * The mode rules of create_states for the extension `next`:
   * NotOverlapping sends the last state of the tree to reset and grows otherwise;
   * PartiallyOverlapping resets on an exact match, grows on a valid prefix and
   * falls back to find_match otherwise; TotallyOverlapping falls back on an exact
   * match or a non-prefix and grows otherwise.
   */
  function Policy(mode: Mode, pattern: seq<Sym>, next: seq<Sym>): Choice
  {
    match mode
    case NotOverlapping =>
      if |next| == |pattern| then ToReset else Grow
    case PartiallyOverlapping =>
      if Matches(pattern, next) then ToReset
      else if PrefixMatches(pattern, next, |next|) then Grow
      else Fallback
    case TotallyOverlapping =>
      if Matches(pattern, next) || !PrefixMatches(pattern, next, |next|) then Fallback
      else Grow
  }

  /**
   * find_match's result is reset or a state whose label the pattern accepts as a
   * prefix: in the overlapping modes every state but reset carries such a label.
   */
  lemma BestMatchIsPrefix(g: seq<Node>, mode: Mode, pattern: seq<Sym>, value: seq<Sym>)
    requires WellFormed(g) && Prefixed(g, mode, pattern) && mode != NotOverlapping && |value| >= 1
    ensures var r := BestMatch(g, value);
      r == Reset || PrefixMatches(pattern, PathLabel(g, r), |PathLabel(g, r)|)
  {
  }

  /**
   * The promise of find_match in the overlapping modes: reset, or a state whose
   * label is a proper suffix of the value and a prefix the pattern accepts.
   */
  lemma FindMatchResult(g: seq<Node>, mode: Mode, pattern: seq<Sym>, value: seq<Sym>)
    requires WellFormed(g) && SuffixClosed(g) && Prefixed(g, mode, pattern) && mode != NotOverlapping
    requires |value| >= 1 && IsBits(value)
    ensures var r := BestMatch(g, value);
      || r == Reset
      || (&& IsSuffix(PathLabel(g, r), value) && |PathLabel(g, r)| < |value|
          && PrefixMatches(pattern, PathLabel(g, r), |PathLabel(g, r)|))
  {
    BestMatchIsProperSuffix(g, value);
    BestMatchIsPrefix(g, mode, pattern, value);
  }

  /** A state is only ever grown for a proper prefix: new labels stay shorter than the pattern. */
  lemma GrowIsShorter(mode: Mode, pattern: seq<Sym>, next: seq<Sym>)
    requires |next| <= |pattern| && Policy(mode, pattern, next) == Grow
    ensures |next| < |pattern|
  {
    if |next| == |pattern| {
      PrefixAtFullLength(pattern, next);
    }
  }

  /** The tests of create_states, in the source's order, for the extension `next`. */
  method Classify(mode: Mode, pattern: seq<Sym>, next: seq<Sym>) returns (c: Choice)
    ensures c == Policy(mode, pattern, next)
  {
    if mode == NotOverlapping {
      c := if |next| == |pattern| then ToReset else Grow;
    } else if mode == PartiallyOverlapping {
      var exact := ValuesCmp(pattern, next);
      if exact == 0 {
        c := ToReset;
      } else {
        var prefix := ValuesNCmp(pattern, next, |next|);
        c := if prefix == 0 then Grow else Fallback;
      }
    } else {
      var exact := ValuesCmp(pattern, next);
      if exact == 0 {
        c := Fallback;
      } else {
        var prefix := ValuesNCmp(pattern, next, |next|);
        c := if prefix != 0 then Fallback else Grow;
      }
    }
  }

  /**
   * Where the transition on b of the state labelled `value` leads, n0 being the
   * arena size before that state's children were built: reset, a fresh state
   * labelled value + b, or a find_match fallback (reset or a state labelled by a
   * proper suffix of value + b that the pattern accepts as a prefix).
   */
  ghost predicate EdgeRule(g: seq<Node>, n0: nat, mode: Mode, pattern: seq<Sym>, value: seq<Sym>, b: Sym, t: nat)
    requires t < |g|
  {
    var next := value + [b];
    match Policy(mode, pattern, next)
    case ToReset => t == Reset
    case Grow => t >= n0 && PathLabel(g, t) == next
    case Fallback =>
      t == Reset ||
      (IsSuffix(PathLabel(g, t), next) && |PathLabel(g, t)| < |next| && PrefixMatches(pattern, PathLabel(g, t), |PathLabel(g, t)|))
  }

  /** EdgeRule survives later growth of the arena, which never relabels a state. */
  lemma EdgeRuleStable(g1: seq<Node>, g2: seq<Node>, n0: nat, n1: nat, mode: Mode, pattern: seq<Sym>,
                       value: seq<Sym>, b: Sym, t: nat)
    requires t < |g1| <= |g2| && n0 <= n1
    requires forall k :: 0 <= k < |g1| ==> g2[k].value == g1[k].value
    requires EdgeRule(g1, n1, mode, pattern, value, b, t)
    ensures EdgeRule(g2, n0, mode, pattern, value, b, t)
  {
    assert PathLabel(g2, t) == PathLabel(g1, t);
  }

  /** Changing only transitions keeps every label and every path label. */
  lemma SameLabels(g: seq<Node>, h: seq<Node>)
    requires |h| == |g| && forall k :: 0 <= k < |g| ==> h[k].value == g[k].value
    ensures forall k :: 0 <= k < |g| ==> PathLabel(h, k) == PathLabel(g, k)
  {
  }

  /** A transition that did not change, between arenas with the same labels, keeps its suffix property. */
  lemma EdgeToSuffixSame(g: seq<Node>, h: seq<Node>, k: nat, c: Sym)
    requires WellFormed(g) && WellFormed(h) && |h| == |g| && k < |g|
    requires forall j :: 0 <= j < |g| ==> h[j].value == g[j].value
    requires Child(h[k], c) == Child(g[k], c)
    ensures EdgeToSuffix(h, k, c) == EdgeToSuffix(g, k, c)
  {
    assert PathLabel(h, k) == PathLabel(g, k);
    match Child(g[k], c)
    case None =>
    case Some(y) => assert PathLabel(h, y) == PathLabel(g, y);
  }

  /** Setting a free (or already equal) transition to a suffix-respecting target keeps suffix closure. */
  lemma SetEdgeKeepsSuffixClosed(g: seq<Node>, x: nat, b: Sym, t: nat)
    requires WellFormed(g) && SuffixClosed(g) && x < |g| && t < |g| && (b == Zero || b == One)
    requires t == Reset || IsSuffix(PathLabel(g, t), PathLabel(g, x) + [b])
    ensures WellFormed(g[x := SetChild(g[x], b, Some(t))])
    ensures SuffixClosed(g[x := SetChild(g[x], b, Some(t))])
  {
    var h := g[x := SetChild(g[x], b, Some(t))];
    assert forall j :: 0 <= j < |g| ==> h[j].value == g[j].value;
    assert WellFormed(h);
    forall k | 0 <= k < |h|
      ensures EdgeToSuffix(h, k, Zero) && EdgeToSuffix(h, k, One)
    {
      assert EdgeToSuffix(g, k, Zero) && EdgeToSuffix(g, k, One);
      if k == x {
        EdgeToSuffixSame(g, h, k, Other(b));
        assert Child(h[k], b) == Some(t);
        assert PathLabel(h, t) == PathLabel(g, t) && PathLabel(h, x) == PathLabel(g, x);
        assert EdgeToSuffix(h, k, b);
      } else {
        EdgeToSuffixSame(g, h, k, Zero);
        EdgeToSuffixSame(g, h, k, One);
      }
    }
  }

  /** Setting a free (or already equal) transition keeps every tree link. */
  lemma SetEdgeKeepsLinks(g: seq<Node>, parent: seq<nat>, x: nat, b: Sym, t: nat)
    requires WellFormed(g) && |parent| == |g| && x < |g| && t < |g|
    requires forall q :: 1 <= q < |g| ==> TreeLinked(g, parent, q)
    requires Child(g[x], b) == None || Child(g[x], b) == Some(t)
    ensures WellFormed(g[x := SetChild(g[x], b, Some(t))])
    ensures var h := g[x := SetChild(g[x], b, Some(t))];
      forall q :: 1 <= q < |h| ==> TreeLinked(h, parent, q)
  {
    var h := g[x := SetChild(g[x], b, Some(t))];
    SameLabels(g, h);
    assert WellFormed(h);
    forall q | 1 <= q < |h|
      ensures TreeLinked(h, parent, q)
    {
      assert TreeLinked(g, parent, q);
    }
  }

  /** Setting a free (or already equal) transition to a suffix-respecting target keeps the invariant. */
  lemma SetEdgeKeepsInv(g: seq<Node>, parent: seq<nat>, len: nat, x: nat, b: Sym, t: nat)
    requires GraphInv(g, parent, len) && x < |g| && t < |g| && (b == Zero || b == One)
    requires Child(g[x], b) == None || Child(g[x], b) == Some(t)
    requires t == Reset || IsSuffix(PathLabel(g, t), PathLabel(g, x) + [b])
    ensures GraphInv(g[x := SetChild(g[x], b, Some(t))], parent, len)
  {
    var h := g[x := SetChild(g[x], b, Some(t))];
    SetEdgeKeepsSuffixClosed(g, x, b, t);
    SetEdgeKeepsLinks(g, parent, x, b, t);
    SetEdgeKeepsLabelled(g, len, x, h[x]);
  }

  /** Replacing a node by one with the same label keeps the labelling. */
  lemma SetEdgeKeepsLabelled(g: seq<Node>, len: nat, x: nat, n: Node)
    requires Labelled(g, len) && x < |g| && n.value == g[x].value
    ensures Labelled(g[x := n], len)
  {
    var h := g[x := n];
    assert forall k :: 0 <= k < |g| ==> h[k].value == g[k].value;
  }

  /** Appending a state with no transitions keeps everything but its own tree link. */
  lemma AppendKeepsInv(g: seq<Node>, parent: seq<nat>, len: nat, value: seq<Sym>, p: nat)
    requires GraphInv(g, parent, len) && IsBits(value) && 1 <= |value| < len && p < |g|
    ensures var h := g + [Node(value, None, None)];
      && WellFormed(h) && |parent + [p]| == |h| && Labelled(h, len) && SuffixClosed(h)
      && forall q :: 1 <= q < |g| ==> TreeLinked(h, parent + [p], q)
  {
    var h := g + [Node(value, None, None)];
    var par := parent + [p];
    assert forall k :: 0 <= k < |g| ==> h[k] == g[k] && PathLabel(h, k) == PathLabel(g, k);
    assert WellFormed(h);
    forall k | 0 <= k < |h|
      ensures EdgeToSuffix(h, k, Zero) && EdgeToSuffix(h, k, One)
    {
      if k < |g| {
        assert EdgeToSuffix(g, k, Zero) && EdgeToSuffix(g, k, One);
      }
    }
    forall q | 1 <= q < |g|
      ensures TreeLinked(h, par, q)
    {
      assert TreeLinked(g, parent, q);
    }
  }

  /** The other binary symbol. */
  function Other(b: Sym): Sym
  {
    if b == Zero then One else Zero
  }

  /** h extends g, keeps every label, and changes no node of g other than x. */
  ghost predicate Kept(g: seq<Node>, h: seq<Node>, x: nat)
  {
    |g| <= |h| && forall k :: 0 <= k < |g| ==> h[k].value == g[k].value && (k != x ==> h[k] == g[k])
  }

  /** Replacing a node by one with the same label keeps every path label. */
  lemma SameLabel(g: seq<Node>, x: nat, n: Node)
    requires x < |g| && n.value == g[x].value
    ensures forall k :: 0 <= k < |g| ==> PathLabel(g[x := n], k) == PathLabel(g, k)
  {
  }

  /** Changing a transition below lo leaves the states from lo on finished. */
  lemma RuledUpdate(g: seq<Node>, mode: Mode, pattern: seq<Sym>, x: nat, n: Node, lo: nat)
    requires WellFormed(g) && x < lo <= |g| && WellFormed(g[x := n]) && n.value == g[x].value
    requires Ruled(g, mode, pattern, lo, |g|)
    ensures Ruled(g[x := n], mode, pattern, lo, |g|)
  {
    var h := g[x := n];
    SameLabel(g, x, n);
    forall k | lo <= k < |g|
      ensures StateRuled(h, mode, pattern, k)
    {
      assert StateRuled(g, mode, pattern, k);
      assert h[k] == g[k];
    }
  }

  /** A finished state just below a finished range extends the range. */
  lemma RuledExtend(g: seq<Node>, mode: Mode, pattern: seq<Sym>, lo: nat)
    requires WellFormed(g) && lo < |g| && StateRuled(g, mode, pattern, lo) && Ruled(g, mode, pattern, lo + 1, |g|)
    ensures Ruled(g, mode, pattern, lo, |g|)
  {
  }

  /** Replacing a node by one with the same label keeps the prefix invariant. */
  lemma PrefixedUpdate(g: seq<Node>, mode: Mode, pattern: seq<Sym>, x: nat, n: Node)
    requires Prefixed(g, mode, pattern) && x < |g| && n.value == g[x].value
    ensures Prefixed(g[x := n], mode, pattern)
  {
    var h := g[x := n];
    assert forall k :: 0 <= k < |g| ==> h[k].value == g[k].value;
  }

  /** Settling the b-transition of x keeps every label and every other node. */
  lemma SettleKept(g0: seq<Node>, g1: seq<Node>, h: seq<Node>, x: nat, b: Sym, t: nat)
    requires x < |g0| <= |g1| && t < |g1|
    requires t < |g0| ==> g1 == g0
    requires t >= |g0| ==> t == |g0| && Kept(g0[x := SetChild(g0[x], b, Some(t))], g1, t)
    requires h == g1[x := SetChild(g1[x], b, Some(t))]
    ensures Kept(g0, h, x)
  {
  }

  /** A graph whose every state is finished is complete. */
  lemma RuledComplete(g: seq<Node>, mode: Mode, pattern: seq<Sym>)
    requires WellFormed(g) && Ruled(g, mode, pattern, 0, |g|)
    ensures Complete(g)
  {
    forall k | 0 <= k < |g|
      ensures g[k].left.Some? && g[k].right.Some?
    {
      assert StateRuled(g, mode, pattern, k);
    }
  }

  lemma KeptTrans(g1: seq<Node>, g2: seq<Node>, g3: seq<Node>, x: nat)
    requires Kept(g1, g2, x) && Kept(g2, g3, x)
    ensures Kept(g1, g3, x)
  {
  }

  /** States finished in two steps that do not touch each other's new states stay finished. */
  lemma RuledJoin(g1: seq<Node>, g2: seq<Node>, g3: seq<Node>, mode: Mode, pattern: seq<Sym>, x: nat)
    requires WellFormed(g2) && WellFormed(g3) && x < |g1| && Kept(g1, g2, x) && Kept(g2, g3, x)
    requires Ruled(g2, mode, pattern, |g1|, |g2|) && Ruled(g3, mode, pattern, |g2|, |g3|)
    ensures Ruled(g3, mode, pattern, |g1|, |g3|)
  {
    assert forall j :: 0 <= j < |g2| ==> PathLabel(g3, j) == PathLabel(g2, j);
    forall k | |g1| <= k < |g2|
      ensures StateRuled(g3, mode, pattern, k)
    {
      assert StateRuled(g2, mode, pattern, k);
      assert g3[k] == g2[k];
    }
  }

  /** find_match: the loop walks the rest of the value, the tail call retries on a shorter rest. */
  method FindMatch(g: seq<Node>, value: seq<Sym>) returns (r: nat)
    requires WellFormed(g) && |value| >= 1
    ensures r == BestMatch(g, value)
    decreases |value|
  {
    var t := value[1..];
    if |t| == 0 {
      return Reset;
    }
    var m: nat := Reset;
    var found := true;
    var i := 0;
    while found && i < |t|
      invariant 0 <= i <= |t| && m < |g|
      invariant found ==> WalkAvoidingReset(g, Reset, t) == WalkAvoidingReset(g, m, t[i..])
      invariant !found ==> WalkAvoidingReset(g, Reset, t) == None
    {
      var e := Child(g[m], t[i]);
      if e.None? || e.value == Reset {
        found := false;
      } else {
        m := e.value;
      }
      i := i + 1;
    }
    if !found {
      r := FindMatch(g, t);
    } else {
      r := m;
    }
  }

  /**
   * Construction order is visible to find_match. For the pattern "--" in the
   * totally overlapping mode, the '1'-transition of state "0" is settled while
   * reset's '1'-transition is still NULL, so "01" falls back to reset although
   * "1" is a proper suffix of "01" and a prefix the pattern accepts.
   * The arena below is the `mid` of SettleBoth for state "0" at that step:
   * CreateStates([]) has allocated "0" below reset on '0' (so reset's left is
   * "0"), and "0" has settled '0' on "00", which falls back to "0" itself.
   */
  lemma FallbackBeforeRightSubtree()
    ensures var g := [Node([DontCare], Some(1), None), Node([Zero], Some(1), None)];
      && WellFormed(g)
      && Policy(TotallyOverlapping, [DontCare, DontCare], [Zero, One]) == Fallback
      && BestMatch(g, [Zero, One]) == Reset
      && PrefixMatches([DontCare, DontCare], [One], 1)
  {
    var g := [Node([DontCare], Some(1), None), Node([Zero], Some(1), None)];
    assert WalkAvoidingReset(g, Reset, [One]) == None;
    assert Matches([DontCare, DontCare], [Zero, One]);
  }

  /** Hooking node k in below p on b, where p had no b-transition, keeps every node linked to its parent. */
  lemma HookKeepsTreeLinked(g: seq<Node>, h: seq<Node>, parent: seq<nat>, p: nat, b: Sym, k: nat, q: nat)
    requires WellFormed(g) && WellFormed(h) && |parent| == |g| == |h| && 1 <= q < |g| && p < |g|
    requires h == g[p := SetChild(g[p], b, Some(k))] && Child(g[p], b) == None
    requires q != k ==> TreeLinked(g, parent, q)
    requires q == k ==> |g[k].value| >= 1 && parent[k] == p && p < k && PathLabel(g, p) == Init(g[k].value) && Last(g[k].value) == b
    ensures TreeLinked(h, parent, q)
  {
    assert h[q].value == g[q].value;
    assert PathLabel(h, parent[q]) == PathLabel(g, parent[q]);
  }

  /** Hooking the newest node k in below its parent p keeps the whole invariant. */
  lemma HookKeepsInv(g: seq<Node>, parent: seq<nat>, len: nat, p: nat, k: nat)
    requires WellFormed(g) && |parent| == |g| && Labelled(g, len) && SuffixClosed(g)
    requires k == |g| - 1 && k >= 1 && forall q :: 1 <= q < k ==> TreeLinked(g, parent, q)
    requires parent[k] == p && p < k && PathLabel(g, p) == Init(g[k].value)
    requires Child(g[p], Last(g[k].value)) == None
    ensures GraphInv(g[p := SetChild(g[p], Last(g[k].value), Some(k))], parent, len)
  {
    var lab := g[k].value;
    var b := Last(lab);
    var h := g[p := SetChild(g[p], b, Some(k))];
    assert b == Zero || b == One;
    assert lab == Init(lab) + [b];
    assert IsSuffix(PathLabel(g, k), PathLabel(g, p) + [b]);
    SetEdgeKeepsSuffixClosed(g, p, b, k);
    SetEdgeKeepsLabelled(g, len, p, h[p]);
    forall q | 1 <= q < |h|
      ensures TreeLinked(h, parent, q)
    {
      HookKeepsTreeLinked(g, h, parent, p, b, k, q);
    }
  }

  /** The graph under construction together with the `Sequence` fields it updates. */
  class StateGraph {
    const pattern: seq<Sym>
    const mode: Mode
    var nodes: seq<Node>
    /** sequence->nstates: one per allocated state, reset included. */
    var nstates: int
    /** parent[k] is the state whose child node k was made (ghost: the source keeps no such pointer). */
    ghost var parent: seq<nat>

    ghost predicate Valid()
      reads this
    {
      && 1 <= |pattern| <= MaxSeq && nstates == |nodes| && GraphInv(nodes, parent, |pattern|)
      && Prefixed(nodes, mode, pattern)
    }

    /** The reset node of get_states_list: label "-", no transitions, nstates = 1. */
    constructor (pattern: seq<Sym>, mode: Mode)
      requires 1 <= |pattern| <= MaxSeq
      ensures Valid() && this.pattern == pattern && this.mode == mode
      ensures nodes == [Node([DontCare], None, None)] && nstates == 1
    {
      this.pattern := pattern;
      this.mode := mode;
      nodes := [Node([DontCare], None, None)];
      nstates := 1;
      parent := [Reset];
    }

    /**
     * add_state_to_graph: walk all but the last symbol of the new state's label
     * from reset, then hook the state in as that parent's child on the last symbol.
     */
    method AddStateToGraph(k: nat)
      requires 1 <= |pattern| <= MaxSeq && nstates == |nodes|
      requires WellFormed(nodes) && |parent| == |nodes| && Labelled(nodes, |pattern|) && SuffixClosed(nodes)
      requires Prefixed(nodes, mode, pattern)
      requires k == |nodes| - 1 && k >= 1
      requires forall q :: 1 <= q < k ==> TreeLinked(nodes, parent, q)
      requires parent[k] < k && PathLabel(nodes, parent[k]) == Init(nodes[k].value)
      requires Child(nodes[parent[k]], Last(nodes[k].value)) == None
      modifies this
      ensures Valid()
      ensures nodes == old(nodes[parent[k] := SetChild(nodes[parent[k]], Last(nodes[k].value), Some(k))])
      ensures parent == old(parent) && nstates == old(nstates)
    {
      var g := nodes;
      var lab := g[k].value;
      WalkReachesState(g, parent, parent[k]);
      var p := Reset;
      var i := 0;
      while i < |lab| - 1
        invariant 0 <= i <= |lab| - 1
        invariant p < |g| && Walk(g, lab[..i]) == Some(p)
        invariant nodes == g && parent == old(parent) && nstates == old(nstates)
      {
        WalkPrefix(g, Init(lab), i + 1);
        assert Init(lab)[..i + 1] == lab[..i + 1];
        assert Init(lab[..i + 1]) == lab[..i];
        if lab[i] == Zero {
          p := g[p].left.value;
        } else {
          p := g[p].right.value;
        }
        i := i + 1;
      }
      assert lab[..i] == Init(lab);
      assert p == parent[k];
      HookKeepsInv(g, parent, |pattern|, p, k);
      PrefixedUpdate(g, mode, pattern, p, SetChild(g[p], lab[|lab| - 1], Some(k)));
      nodes := g[p := SetChild(g[p], lab[|lab| - 1], Some(k))];
    }

    /**
     * The target of the transition on b of the state labelled `value`: the
     * mode-dependent choice create_states makes for value + b.
     */
    method NextState(state: nat, value: seq<Sym>, b: Sym) returns (t: nat)
      requires Valid() && state < |nodes| && PathLabel(nodes, state) == value
      requires IsBits(value) && |value| < |pattern| && (b == Zero || b == One)
      requires Child(nodes[state], b) == None
      modifies this
      decreases |pattern| - |value|, 0
      ensures Valid() && t < |nodes| && old(|nodes|) <= |nodes|
      ensures EdgeRule(nodes, old(|nodes|), mode, pattern, value, b, t)
      ensures t == Reset || IsSuffix(PathLabel(nodes, t), value + [b])
      ensures t < old(|nodes|) ==> nodes == old(nodes)
      ensures Policy(mode, pattern, value + [b]) == Fallback ==> t == BestMatch(old(nodes), value + [b])
      ensures t >= old(|nodes|) ==> t == old(|nodes|) && Kept(old(nodes)[state := SetChild(old(nodes)[state], b, Some(t))], nodes, t)
      ensures Ruled(nodes, mode, pattern, old(|nodes|), |nodes|)
    {
      var next := value + [b];
      assert IsBits(next);
      var c := Classify(mode, pattern, next);
      match c
      case ToReset =>
        t := Reset;
      case Grow =>
        GrowIsShorter(mode, pattern, next);
        assert mode != NotOverlapping ==> PrefixMatches(pattern, next, |next|);
        t := CreateStates(next, state);
      case Fallback =>
        t := FindMatch(nodes, next);
        BestMatchIsProperSuffix(nodes, next);
        if mode != NotOverlapping {
          FindMatchResult(nodes, mode, pattern, next);
        }
    }

    /** Allocates the state for a non-empty value and hooks it into the graph. */
    method NewState(value: seq<Sym>, ghost p: nat) returns (state: nat)
      requires Valid() && IsBits(value) && 1 <= |value| < |pattern|
      requires mode != NotOverlapping ==> PrefixMatches(pattern, value, |value|)
      requires p < |nodes| && PathLabel(nodes, p) == Init(value) && Child(nodes[p], Last(value)) == None
      modifies this
      ensures Valid() && state == old(|nodes|) && |nodes| == state + 1
      ensures nodes[state] == Node(value, None, None) && parent[state] == p
      ensures nodes[..state] == old(nodes)[p := SetChild(old(nodes)[p], Last(value), Some(state))]
      ensures parent == old(parent) + [p]
    {
      state := |nodes|;
      AppendKeepsInv(nodes, parent, |pattern|, value, p);
      nodes := nodes + [Node(value, None, None)];
      parent := parent + [p];
      nstates := nstates + 1;
      AddStateToGraph(state);
    }

    /** `state->left = t` or `state->right = t` once the target is known. */
    method SetTransition(x: nat, b: Sym, t: nat)
      requires Valid() && x < |nodes| && t < |nodes| && (b == Zero || b == One)
      requires Child(nodes[x], b) == None || Child(nodes[x], b) == Some(t)
      requires t == Reset || IsSuffix(PathLabel(nodes, t), PathLabel(nodes, x) + [b])
      modifies this
      ensures Valid() && nodes == old(nodes)[x := SetChild(old(nodes)[x], b, Some(t))]
      ensures parent == old(parent)
    {
      SetEdgeKeepsInv(nodes, parent, |pattern|, x, b, t);
      PrefixedUpdate(nodes, mode, pattern, x, SetChild(nodes[x], b, Some(t)));
      nodes := nodes[x := SetChild(nodes[x], b, Some(t))];
    }

    /** One transition of create_states: compute its target, then store it in the state. */
    method Settle(state: nat, value: seq<Sym>, b: Sym) returns (t: nat)
      requires Valid() && state < |nodes| && PathLabel(nodes, state) == value
      requires IsBits(value) && |value| < |pattern| && (b == Zero || b == One)
      requires Child(nodes[state], b) == None
      modifies this
      decreases |pattern| - |value|, 1
      ensures Valid() && t < |nodes| && state < old(|nodes|) <= |nodes|
      ensures Child(nodes[state], b) == Some(t)
      ensures Child(nodes[state], Other(b)) == Child(old(nodes[state]), Other(b))
      ensures EdgeRule(nodes, old(|nodes|), mode, pattern, value, b, t)
      ensures Policy(mode, pattern, value + [b]) == Fallback ==> t == BestMatch(old(nodes), value + [b])
      ensures Kept(old(nodes), nodes, state)
      ensures Ruled(nodes, mode, pattern, old(|nodes|), |nodes|)
    {
      ghost var g0 := nodes;
      t := NextState(state, value, b);
      ghost var g1 := nodes;
      SetTransition(state, b, t);
      assert PathLabel(g1, t) == PathLabel(nodes, t);
      RuledUpdate(g1, mode, pattern, state, nodes[state], |g0|);
      SettleKept(g0, g1, nodes, state, b, t);
    }

    /**
     * The two transitions of create_states: '0' is settled completely before
     * '1'. `mid` is the arena between the two: it holds the whole '0' subtree
     * while the state's own '1' transition is still NULL, and a '1' fallback is
     * find_match on that arena.
     */
    method SettleBoth(state: nat, value: seq<Sym>) returns (ghost mid: seq<Node>)
      requires Valid() && state < |nodes| && PathLabel(nodes, state) == value
      requires IsBits(value) && |value| < |pattern|
      requires nodes[state].left == None && nodes[state].right == None
      modifies this
      decreases |pattern| - |value|, 2
      ensures Valid() && state < old(|nodes|) <= |nodes|
      ensures nodes[state].left.Some? && nodes[state].right.Some?
      ensures EdgeRule(nodes, old(|nodes|), mode, pattern, value, Zero, nodes[state].left.value)
      ensures EdgeRule(nodes, old(|nodes|), mode, pattern, value, One, nodes[state].right.value)
      ensures Kept(old(nodes), nodes, state)
      ensures Ruled(nodes, mode, pattern, old(|nodes|), |nodes|)
      ensures WellFormed(mid) && Kept(old(nodes), mid, state) && Kept(mid, nodes, state) && state < |mid|
      ensures mid[state].left == nodes[state].left && mid[state].right == None
      ensures Policy(mode, pattern, value + [Zero]) == Fallback ==> nodes[state].left.value == BestMatch(old(nodes), value + [Zero])
      ensures Policy(mode, pattern, value + [One]) == Fallback ==> nodes[state].right.value == BestMatch(mid, value + [One])
    {
      ghost var g0 := nodes;
      var l := Settle(state, value, Zero);
      ghost var g1 := nodes;
      mid := g1;
      var r := Settle(state, value, One);
      KeptTrans(g0, g1, nodes, state);
      RuledJoin(g0, g1, nodes, mode, pattern, state);
      EdgeRuleStable(g1, nodes, |g0|, |g0|, mode, pattern, value, Zero, l);
      EdgeRuleStable(nodes, nodes, |g0|, |g1|, mode, pattern, value, One, r);
    }

    /**
     * create_states: allocate the state for `value` (reset for the empty value),
     * hook it into the graph, then settle its two transitions.
     */
    method CreateStates(value: seq<Sym>, ghost p: nat) returns (state: nat)
      requires Valid() && IsBits(value) && |value| < |pattern|
      requires value == [] ==> |nodes| == 1 && nodes[Reset].left == None && nodes[Reset].right == None
      requires value != [] ==> p < |nodes| && PathLabel(nodes, p) == Init(value) && Child(nodes[p], Last(value)) == None
      requires value != [] && mode != NotOverlapping ==> PrefixMatches(pattern, value, |value|)
      modifies this
      decreases |pattern| - |value|, 3
      ensures Valid() && state < |nodes| && old(|nodes|) <= |nodes|
      ensures state == if value == [] then Reset else old(|nodes|)
      ensures PathLabel(nodes, state) == value
      ensures nodes[state].left.Some? && nodes[state].right.Some?
      ensures EdgeRule(nodes, old(|nodes|), mode, pattern, value, Zero, nodes[state].left.value)
      ensures EdgeRule(nodes, old(|nodes|), mode, pattern, value, One, nodes[state].right.value)
      ensures Ruled(nodes, mode, pattern, old(|nodes|), |nodes|)
      ensures value == [] ==> Complete(nodes) && Ruled(nodes, mode, pattern, 0, |nodes|) && Kept(old(nodes), nodes, Reset)
      ensures value != [] ==> Kept(old(nodes)[p := SetChild(old(nodes)[p], Last(value), Some(state))], nodes, state)
    {
      if value == [] {
        state := Reset;
        ghost var _ := SettleBoth(state, value);
        EdgeRuleStable(nodes, nodes, 0, 1, mode, pattern, value, Zero, nodes[state].left.value);
        EdgeRuleStable(nodes, nodes, 0, 1, mode, pattern, value, One, nodes[state].right.value);
        RuledExtend(nodes, mode, pattern, 0);
        RuledComplete(nodes, mode, pattern);
      } else {
        state := NewState(value, p);
        ghost var g0 := nodes;
        ghost var _ := SettleBoth(state, value);
        EdgeRuleStable(nodes, nodes, state, state + 1, mode, pattern, value, Zero, nodes[state].left.value);
        EdgeRuleStable(nodes, nodes, state, state + 1, mode, pattern, value, One, nodes[state].right.value);
        EdgeRuleStable(nodes, nodes, 0, state + 1, mode, pattern, value, Zero, nodes[state].left.value);
        EdgeRuleStable(nodes, nodes, 0, state + 1, mode, pattern, value, One, nodes[state].right.value);
        RuledExtend(nodes, mode, pattern, state);
        assert Kept(g0[..state], nodes, state);
      }
    }
  }
}
