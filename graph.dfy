/**
 * The state graph of fsm.c as an arena: node k stands for a `State`, the index
 * of a node replaces a pointer to it, `None` replaces NULL and node 0 is reset.
 */
module Graph {
  import opened Symbols

  datatype Option<T> = None | Some(value: T)

  /** A state: its label and its transitions on '0' (left) and on '1' (right). */
  datatype Node = Node(value: seq<Sym>, left: Option<nat>, right: Option<nat>)

  const Reset: nat := 0

  /** The transition taken on symbol b; as in the source, anything but '0' goes right. */
  function Child(n: Node, b: Sym): Option<nat>
  {
    if b == Zero then n.left else n.right
  }

  function SetChild(n: Node, b: Sym, t: Option<nat>): Node
  {
    if b == Zero then n.(left := t) else n.(right := t)
  }

  predicate EdgeIn(e: Option<nat>, n: nat)
  {
    e.None? || e.value < n
  }

  /** Reset exists and every pointer names a node of the arena. */
  predicate WellFormed(g: seq<Node>)
  {
    |g| >= 1 && forall k :: 0 <= k < |g| ==> EdgeIn(g[k].left, |g|) && EdgeIn(g[k].right, |g|)
  }

  /** Every state has both transitions set: the graph after construction. */
  predicate Complete(g: seq<Node>)
  {
    WellFormed(g) && forall k :: 0 <= k < |g| ==> g[k].left.Some? && g[k].right.Some?
  }

  /** The input consumed to reach a state: reset's stored label "-" stands for no input. */
  function PathLabel(g: seq<Node>, k: nat): seq<Sym>
    requires k < |g|
  {
    if k == Reset then [] else g[k].value
  }

  function Init(s: seq<Sym>): seq<Sym>
    requires |s| >= 1
  {
    s[..|s| - 1]
  }

  function Last(s: seq<Sym>): Sym
    requires |s| >= 1
  {
    s[|s| - 1]
  }

  predicate IsSuffix(a: seq<Sym>, b: seq<Sym>)
  {
    |a| <= |b| && b[|b| - |a|..] == a
  }

  /** Follows the transitions named by s from reset; fails at a NULL pointer. */
  function Walk(g: seq<Node>, s: seq<Sym>): (r: Option<nat>)
    requires WellFormed(g)
    ensures r.Some? ==> r.value < |g|
    decreases |s|
  {
    if s == [] then Some(Reset)
    else match Walk(g, Init(s))
      case None => None
      case Some(x) => Child(g[x], Last(s))
  }

  /** find_match's walk from x along t: it fails at a NULL pointer and at a pointer to reset. */
  function WalkAvoidingReset(g: seq<Node>, x: nat, t: seq<Sym>): (r: Option<nat>)
    requires WellFormed(g) && x < |g|
    ensures r.Some? ==> r.value < |g|
    ensures r.Some? && t != [] ==> r.value != Reset
    decreases |t|
  {
    if t == [] then Some(x)
    else match Child(g[x], t[0])
      case None => None
      case Some(y) => if y == Reset then None else WalkAvoidingReset(g, y, t[1..])
  }

  /**
   * What find_match returns for `value`: drop the first symbol; an empty rest
   * gives reset; a successful walk gives the state reached; otherwise retry on
   * the rest. Each retry is on a strictly shorter string.
   */
  function BestMatch(g: seq<Node>, value: seq<Sym>): (r: nat)
    requires WellFormed(g) && |value| >= 1
    ensures r < |g|
    decreases |value|
  {
    var t := value[1..];
    if t == [] then Reset
    else match WalkAvoidingReset(g, Reset, t)
      case Some(m) => m
      case None => BestMatch(g, t)
  }

  /** The transition of k on b leads to reset or to a state labelled by a suffix of label(k) + b. */
  ghost predicate EdgeToSuffix(g: seq<Node>, k: nat, b: Sym)
    requires WellFormed(g) && k < |g|
  {
    match Child(g[k], b)
    case None => true
    case Some(y) => y == Reset || IsSuffix(PathLabel(g, y), PathLabel(g, k) + [b])
  }

  /** The failure-function property of the graph: no transition forgets recent input. */
  ghost predicate SuffixClosed(g: seq<Node>)
    requires WellFormed(g)
  {
    forall k :: 0 <= k < |g| ==> EdgeToSuffix(g, k, Zero) && EdgeToSuffix(g, k, One)
  }

  /** Node k hangs below its recorded parent, by the last symbol of its label. */
  ghost predicate TreeLinked(g: seq<Node>, parent: seq<nat>, k: nat)
    requires WellFormed(g) && |parent| == |g| && 1 <= k < |g|
  {
    var lab := g[k].value;
    && |lab| >= 1
    && parent[k] < k
    && PathLabel(g, parent[k]) == Init(lab)
    && Child(g[parent[k]], Last(lab)) == Some(k)
  }

  lemma IsSuffixTrans(a: seq<Sym>, b: seq<Sym>, c: seq<Sym>)
    requires IsSuffix(a, b) && IsSuffix(b, c)
    ensures IsSuffix(a, c)
  {
    assert c[|c| - |a|..] == c[|c| - |b|..][|b| - |a|..];
  }

  lemma IsSuffixAppend(a: seq<Sym>, b: seq<Sym>, x: Sym)
    requires IsSuffix(a, b)
    ensures IsSuffix(a + [x], b + [x])
  {
    assert (b + [x])[|b| + 1 - (|a| + 1)..] == b[|b| - |a|..] + [x];
  }

  /** Walking a state's own label from reset arrives at that state. */
  lemma {:induction false} WalkReachesState(g: seq<Node>, parent: seq<nat>, k: nat)
    requires WellFormed(g) && |parent| == |g| && k < |g|
    requires forall q :: 1 <= q <= k ==> TreeLinked(g, parent, q)
    ensures Walk(g, PathLabel(g, k)) == Some(k)
  {
    if k != Reset {
      var lab := g[k].value;
      assert TreeLinked(g, parent, k);
      WalkReachesState(g, parent, parent[k]);
      assert Init(lab) == PathLabel(g, parent[k]);
    }
  }

  /** A walk that succeeds also succeeds on every prefix of its input. */
  lemma {:induction false} WalkPrefix(g: seq<Node>, s: seq<Sym>, i: nat)
    requires WellFormed(g) && i <= |s| && Walk(g, s).Some?
    ensures Walk(g, s[..i]).Some?
    decreases |s| - i
  {
    if i < |s| {
      WalkPrefix(g, Init(s), i);
      assert Init(s)[..i] == s[..i];
    } else {
      assert s[..i] == s;
    }
  }

  /** In a suffix-closed graph, find_match's walk reaches a state labelled by a suffix of what it read. */
  lemma {:induction false} WalkAvoidingResetSuffix(g: seq<Node>, x: nat, t: seq<Sym>, u: seq<Sym>)
    requires WellFormed(g) && SuffixClosed(g) && x < |g|
    requires IsSuffix(PathLabel(g, x), u) && IsBits(t)
    ensures WalkAvoidingReset(g, x, t).Some? ==> IsSuffix(PathLabel(g, WalkAvoidingReset(g, x, t).value), u + t)
    decreases |t|
  {
    if t == [] {
      assert u + t == u;
    } else if Child(g[x], t[0]).Some? {
      var y := Child(g[x], t[0]).value;
      if y != Reset {
        assert EdgeToSuffix(g, x, Zero) && EdgeToSuffix(g, x, One);
        assert t[0] == Zero || t[0] == One;
        assert IsSuffix(PathLabel(g, y), PathLabel(g, x) + [t[0]]);
        IsSuffixAppend(PathLabel(g, x), u, t[0]);
        IsSuffixTrans(PathLabel(g, y), PathLabel(g, x) + [t[0]], u + [t[0]]);
        WalkAvoidingResetSuffix(g, y, t[1..], u + [t[0]]);
        assert u + [t[0]] + t[1..] == u + t;
      }
    }
  }

  /** find_match returns reset or a state whose label is a proper suffix of the value it was given. */
  lemma {:induction false} BestMatchIsProperSuffix(g: seq<Node>, value: seq<Sym>)
    requires WellFormed(g) && SuffixClosed(g) && |value| >= 1 && IsBits(value)
    ensures var r := BestMatch(g, value);
      r == Reset || (IsSuffix(PathLabel(g, r), value) && |PathLabel(g, r)| < |value|)
    decreases |value|
  {
    var t := value[1..];
    assert IsSuffix(t, value);
    if t != [] {
      match WalkAvoidingReset(g, Reset, t)
      case Some(m) =>
        WalkAvoidingResetSuffix(g, Reset, t, []);
        assert [] + t == t;
        IsSuffixTrans(PathLabel(g, m), t, value);
      case None =>
        BestMatchIsProperSuffix(g, t);
        var r := BestMatch(g, t);
        if r != Reset {
          IsSuffixTrans(PathLabel(g, r), t, value);
        }
    }
  }
}
