/**
 * The state catalogue of fsm.c (get_states_list, list_add, list_contains,
 * list_index, list_qsort, swap): the states reachable from reset, collected
 * once each into an array sized by the number of allocated states, then
 * permuted in place.
 */
module Catalog {
  import opened Symbols
  import opened Graph
  import opened Builder

  /** No state is listed twice. */
  predicate Distinct(s: seq<nat>)
  {
    forall a, b :: 0 <= a < b < |s| ==> s[a] != s[b]
  }

  /** Every listed state names a node of an arena of n nodes. */
  predicate Below(s: seq<nat>, n: nat)
  {
    forall k :: 0 <= k < |s| ==> s[k] < n
  }

  /** The k-th listed state; quantifiers over a list's transitions hang on this name. */
  function At(s: seq<nat>, k: nat): nat
    requires k < |s|
  {
    s[k]
  }

  /** The transitions of the k-th listed state lead to listed states. */
  predicate ChildrenOfListed(g: seq<Node>, s: seq<nat>, k: nat)
    requires Complete(g) && Below(s, |g|) && k < |s|
  {
    g[At(s, k)].left.value in s && g[At(s, k)].right.value in s
  }

  /** Both transitions of every listed state lead to listed states. */
  predicate ChildrenListed(g: seq<Node>, s: seq<nat>)
    requires Complete(g) && Below(s, |g|)
  {
    forall k :: 0 <= k < |s| ==> ChildrenOfListed(g, s, k)
  }

  /** A prefix of a list lists nothing the list does not. */
  lemma PrefixIn(a: seq<nat>, b: seq<nat>)
    requires |a| <= |b| && b[..|a|] == a
    ensures forall x :: x in a ==> x in b
  {
    forall x | x in a
      ensures x in b
    {
      var i :| 0 <= i < |a| && a[i] == x;
      assert b[i] == x;
    }
  }

  /** s with every occurrence of x removed. */
  function Without(s: seq<nat>, x: nat): (r: seq<nat>)
    ensures forall y :: y in r <==> y in s && y != x
    ensures |r| <= |s| && (x in s ==> |r| < |s|)
    ensures Distinct(s) ==> Distinct(r) && |r| + (if x in s then 1 else 0) == |s|
  {
    if s == [] then []
    else
      var rest := Without(s[1..], x);
      assert s == [s[0]] + s[1..];
      if s[0] == x then rest
      else
        assert Distinct(s) ==> s[0] !in s[1..];
        [s[0]] + rest
  }

  /** Distinct states of an arena of n nodes number at most n. */
  lemma {:induction false} Pigeonhole(s: seq<nat>, n: nat)
    requires Distinct(s) && Below(s, n)
    ensures |s| <= n
    decreases n
  {
    if s != [] {
      assert s[0] < n;
      var t := Without(s, n - 1);
      assert Below(t, n - 1) by {
        forall k | 0 <= k < |t|
          ensures t[k] < n - 1
        {
          assert t[k] in t;
        }
      }
      Pigeonhole(t, n - 1);
    }
  }

  /** A list holding every state of an arena of n nodes has at least n entries. */
  lemma {:induction false} Covering(s: seq<nat>, n: nat)
    requires forall x: nat :: x < n ==> x in s
    ensures |s| >= n
    decreases n
  {
    if n > 0 {
      var t := Without(s, n - 1);
      assert n - 1 in s;
      Covering(t, n - 1);
    }
  }

  /**
   * What list_add(list, s) leaves in a list holding `visited`: nothing new if s
   * is listed already, otherwise s followed by everything list_add adds for its
   * left and then for its right transition (depth-first pre-order).
   */
  function ListAddSpec(g: seq<Node>, visited: seq<nat>, s: nat): (r: seq<nat>)
    requires Complete(g) && Distinct(visited) && Below(visited, |g|) && s < |g|
    ensures |visited| <= |r| && r[..|visited|] == visited
    ensures Distinct(r) && Below(r, |g|) && s in r
    ensures s !in visited ==> |r| > |visited| && r[|visited|] == s
    decreases |g| - |visited|
  {
    if s in visited then visited
    else
      var v1 := visited + [s];
      assert Distinct(v1) && Below(v1, |g|);
      Pigeonhole(v1, |g|);
      var r1 := ListAddSpec(g, v1, g[s].left.value);
      var r := ListAddSpec(g, r1, g[s].right.value);
      PrefixChain(visited, v1, r1, r);
      r
  }

  /** Two extensions of visited + [s] in a row still start with visited + [s]. */
  lemma PrefixChain(visited: seq<nat>, v1: seq<nat>, r1: seq<nat>, r: seq<nat>)
    requires |v1| == |visited| + 1 && v1[..|visited|] == visited
    requires |v1| <= |r1| && r1[..|v1|] == v1 && |r1| <= |r| && r[..|r1|] == r1
    ensures r[..|visited|] == visited && r[|visited|] == v1[|visited|] && v1[|visited|] in r
  {
    assert r[..|visited|] == r1[..|v1|][..|visited|];
    assert r[|visited|] == r1[|visited|];
  }

  /** Everything list_add appends has both of its transitions listed afterwards. */
  lemma {:induction false} ListAddClosed(g: seq<Node>, visited: seq<nat>, s: nat)
    requires Complete(g) && Distinct(visited) && Below(visited, |g|) && s < |g|
    ensures forall k :: |visited| <= k < |ListAddSpec(g, visited, s)| ==> ChildrenOfListed(g, ListAddSpec(g, visited, s), k)
    decreases |g| - |visited|
  {
    if s !in visited {
      var v1 := visited + [s];
      Pigeonhole(v1, |g|);
      var r1 := ListAddSpec(g, v1, g[s].left.value);
      var r := ListAddSpec(g, r1, g[s].right.value);
      assert r == ListAddSpec(g, visited, s);
      ListAddClosed(g, v1, g[s].left.value);
      assert forall k :: |v1| <= k < |r1| ==> ChildrenOfListed(g, r1, k);
      ListAddClosed(g, r1, g[s].right.value);
      assert forall k :: |r1| <= k < |r| ==> ChildrenOfListed(g, r, k);
      PrefixIn(r1, r);
      forall k | |visited| <= k < |r|
        ensures ChildrenOfListed(g, r, k)
      {
        if k < |r1| {
          assert At(r, k) == At(r1, k);
          if k == |visited| {
            assert At(r1, k) == s;
          } else {
            assert ChildrenOfListed(g, r1, k);
          }
        }
      }
    }
  }

  /** Every state but reset is a transition target of a state allocated before it. */
  ghost predicate Hooked(g: seq<Node>, parent: seq<nat>)
    requires |parent| == |g|
  {
    forall q :: 1 <= q < |g| ==> parent[q] < q && (g[parent[q]].left == Some(q) || g[parent[q]].right == Some(q))
  }

  lemma TreeIsHooked(g: seq<Node>, parent: seq<nat>, len: nat)
    requires GraphInv(g, parent, len)
    ensures Hooked(g, parent)
  {
    forall q | 1 <= q < |g|
      ensures parent[q] < q && (g[parent[q]].left == Some(q) || g[parent[q]].right == Some(q))
    {
      assert TreeLinked(g, parent, q);
      var lab := g[q].value;
      assert IsBits(lab) && Last(lab) == lab[|lab| - 1];
    }
  }

  /** A list closed under transitions that holds reset holds every state of the tree. */
  lemma {:induction false} ClosedListHoldsAll(g: seq<Node>, parent: seq<nat>, s: seq<nat>, k: nat)
    requires Complete(g) && |parent| == |g| && k < |g| && Hooked(g, parent)
    requires Below(s, |g|) && ChildrenListed(g, s) && Reset in s
    ensures k in s
    decreases k
  {
    if k != Reset {
      var p := parent[k];
      ClosedListHoldsAll(g, parent, s, p);
      var i :| 0 <= i < |s| && s[i] == p;
      assert ChildrenOfListed(g, s, i);
    }
  }

  /** list_index: the first position holding x, or -1 when x is not listed. */
  function IndexOf(s: seq<nat>, x: nat): (r: int)
    ensures -1 <= r < |s|
    ensures r == -1 <==> x !in s
    ensures r >= 0 ==> s[r] == x && x !in s[..r]
  {
    if s == [] then -1
    else if s[0] == x then 0
    else
      var r := IndexOf(s[1..], x);
      assert s == [s[0]] + s[1..];
      if r == -1 then -1
      else
        assert s[..r + 1] == [s[0]] + s[1..][..r];
        r + 1
  }

  /** The first position holding a state is the one list_index reports. */
  lemma IndexOfFirst(s: seq<nat>, i: nat)
    requires i < |s| && forall m :: 0 <= m < i ==> s[m] != s[i]
    ensures IndexOf(s, s[i]) == i
  {
  }

  /** In a list without duplicates, each state's index is where it sits. */
  lemma IndexOfDistinct(s: seq<nat>, i: nat)
    requires Distinct(s) && i < |s|
    ensures IndexOf(s, s[i]) == i
  {
    IndexOfFirst(s, i);
  }

  /** A duplicate-free list, permuted, stays duplicate-free. */
  lemma {:induction false} DistinctCount(s: seq<nat>, x: nat)
    requires Distinct(s)
    ensures multiset(s)[x] <= 1
  {
    if s != [] {
      var t := s[..|s| - 1];
      assert s == t + [s[|s| - 1]];
      assert Distinct(t);
      DistinctCount(t, x);
      if s[|s| - 1] == x {
        assert x !in t;
        assert x !in multiset(t);
      }
    }
  }

  lemma PermutationKeepsDistinct(s: seq<nat>, t: seq<nat>)
    requires Distinct(s) && multiset(s) == multiset(t)
    ensures Distinct(t)
  {
    forall a, b | 0 <= a < b < |t|
      ensures t[a] != t[b]
    {
      if t[a] == t[b] {
        var x := t[a];
        assert t == t[..b] + t[b..];
        assert x in t[..b] && x in t[b..];
        assert multiset(t)[x] == multiset(t[..b])[x] + multiset(t[b..])[x];
        DistinctCount(s, x);
        assert false;
      }
    }
  }

  lemma PermutationKeepsMembers(s: seq<nat>, t: seq<nat>)
    requires multiset(s) == multiset(t)
    ensures forall x :: x in s ==> x in t
  {
    forall x | x in s
      ensures x in t
    {
      assert x in multiset(s);
    }
  }

  /** The entry at `left` ranks strictly below every other entry of s[left..right]. */
  predicate StrictMinAt(g: seq<Node>, s: seq<nat>, left: nat, right: nat)
    requires left <= right < |s| && Below(s, |g|)
  {
    forall k :: left < k <= right ==> SeqCmp(g[s[k]].value, g[s[left]].value) > 0
  }

  /** swap: exchange two entries of the array. */
  method Swap(a: array<nat>, i: nat, j: nat)
    requires i < a.Length && j < a.Length
    modifies a
    ensures a[..] == old(a[..])[i := old(a[j])][j := old(a[i])]
    ensures multiset(a[..]) == multiset(old(a[..]))
  {
    var temp := a[i];
    a[i] := a[j];
    a[j] := temp;
  }

  /** The first inner loop of list_qsort: i climbs while its entry ranks at most the pivot, stopping at `right`. */
  method ScanUp(a: array<nat>, g: seq<Node>, pivot: nat, i0: nat, right: nat) returns (i: nat)
    requires pivot < a.Length && i0 <= right < a.Length && Below(a[..], |g|)
    ensures i0 <= i <= right
    ensures forall k :: i0 <= k < i ==> SeqCmp(g[a[k]].value, g[a[pivot]].value) <= 0
    ensures i == right || SeqCmp(g[a[i]].value, g[a[pivot]].value) > 0
    ensures i0 == pivot < right && StrictMinAt(g, a[..], pivot, right) ==> i == pivot + 1
  {
    i := i0;
    while SeqCmp(g[a[i]].value, g[a[pivot]].value) <= 0 && i < right
      invariant i0 <= i <= right
      invariant forall k :: i0 <= k < i ==> SeqCmp(g[a[k]].value, g[a[pivot]].value) <= 0
      invariant i0 == pivot < right && StrictMinAt(g, a[..], pivot, right) ==> i <= pivot + 1
      decreases right - i
    {
      i := i + 1;
    }
  }

  /** The second inner loop: j descends while its entry ranks above the pivot; the pivot itself stops it. */
  method ScanDown(a: array<nat>, g: seq<Node>, pivot: nat, j0: nat) returns (j: nat)
    requires pivot <= j0 < a.Length && Below(a[..], |g|)
    ensures pivot <= j <= j0
    ensures forall k :: j < k <= j0 ==> SeqCmp(g[a[k]].value, g[a[pivot]].value) > 0
    ensures SeqCmp(g[a[j]].value, g[a[pivot]].value) <= 0
    ensures StrictMinAt(g, a[..], pivot, j0) ==> j == pivot
  {
    j := j0;
    while SeqCmp(g[a[j]].value, g[a[pivot]].value) > 0
      invariant pivot <= j <= j0
      invariant forall k :: j < k <= j0 ==> SeqCmp(g[a[k]].value, g[a[pivot]].value) > 0
      decreases j
    {
      j := j - 1;
    }
  }

  /**
   * The partition loop of list_qsort around the entry at `left`: i climbs over
   * entries ranking at most the pivot (never past `right`), j descends over
   * entries ranking above it, and the two are swapped while i <= j.
   */
  method Partition(a: array<nat>, g: seq<Node>, left: nat, right: nat) returns (i: int, j: int)
    requires left < right < a.Length && Below(a[..], |g|)
    modifies a
    ensures left < i <= right + 1 && left <= j < right
    ensures a[left] == old(a[left]) && Below(a[..], |g|)
    ensures multiset(a[..]) == multiset(old(a[..]))
    ensures forall k :: 0 <= k < a.Length && !(left < k <= right) ==> a[k] == old(a[k])
    ensures StrictMinAt(g, old(a[..]), left, right) ==> a[..] == old(a[..]) && i == left + 1 && j == left
  {
    i := left;
    j := right;
    var pivot := left;
    ghost var pv := a[left];
    ghost var smallest := StrictMinAt(g, a[..], left, right);
    while i <= j
      invariant left <= i <= right + 1 && left <= j <= right
      invariant a[left] == pv && Below(a[..], |g|)
      invariant i == left ==> j == right
      invariant i > left ==> j < right
      invariant multiset(a[..]) == multiset(old(a[..]))
      invariant forall k :: 0 <= k < a.Length && !(left < k <= right) ==> a[k] == old(a[k])
      invariant smallest ==> a[..] == old(a[..]) && ((i == left && j == right) || (i == left + 1 && j == left))
      decreases j - i + 2
    {
      i, j := PartitionStep(a, g, left, right, i, j);
    }
  }

  /** One round of list_qsort's partition loop: both scans, then a swap if they have not crossed. */
  method PartitionStep(a: array<nat>, g: seq<Node>, left: nat, right: nat, i0: nat, j0: nat) returns (i: int, j: int)
    requires left < right < a.Length && Below(a[..], |g|)
    requires left <= i0 <= j0 <= right && (i0 == left ==> j0 == right) && (i0 > left ==> j0 < right)
    modifies a
    ensures left < i <= right + 1 && left <= j < right && j - i < j0 - i0
    ensures a[left] == old(a[left]) && Below(a[..], |g|)
    ensures multiset(a[..]) == multiset(old(a[..]))
    ensures forall k :: 0 <= k < a.Length && !(left < k <= right) ==> a[k] == old(a[k])
    ensures i0 == left && StrictMinAt(g, old(a[..]), left, right) ==> a[..] == old(a[..]) && i == left + 1 && j == left
  {
    var pivot := left;
    i := ScanUp(a, g, pivot, i0, right);
    j := ScanDown(a, g, pivot, j0);
    if i <= j {
      Swap(a, i, j);
      i := i + 1;
      j := j - 1;
    }
  }

  /**
   * list_qsort: partition, move the pivot to j, then sort [left, j] and
   * [i, right]. The ranges it works on never leave [left, right], and a
   * strict minimum at `left` stays in place.
   */
  method ListQsort(a: array<nat>, g: seq<Node>, left: int, right: int)
    requires 0 <= left && right < a.Length && Below(a[..], |g|)
    modifies a
    decreases right - left
    ensures Below(a[..], |g|)
    ensures multiset(a[..]) == multiset(old(a[..]))
    ensures forall k :: 0 <= k < a.Length && !(left <= k <= right) ==> a[k] == old(a[k])
    ensures left <= right && StrictMinAt(g, old(a[..]), left, right) ==> a[left] == old(a[left])
  {
    if left >= right {
      return;
    }
    var i, j := Partition(a, g, left, right);
    Swap(a, left, j);
    if left < j {
      ListQsort(a, g, left, j);
    }
    if i < right {
      ListQsort(a, g, i, right);
    }
  }

  /** The array of states: pointers to states become arena indices. */
  class StatesList {
    const states: array<nat>
    /** list->nstates: how many entries of `states` are in use. */
    var nstates: nat

    ghost predicate Valid()
      reads this
    {
      nstates <= states.Length
    }

    /** The states listed so far, in list order. */
    function Contents(): seq<nat>
      reads this, states
      requires Valid()
    {
      states[..nstates]
    }

    /** An empty list with room for `capacity` states. */
    constructor (capacity: nat)
      ensures Valid() && fresh(states) && states.Length == capacity && nstates == 0
    {
      states := new nat[capacity];
      nstates := 0;
    }

    /** list_contains: a linear scan of the used part of the array. */
    method ListContains(s: nat) returns (r: bool)
      requires Valid()
      ensures r <==> s in Contents()
    {
      var i := 0;
      while i < nstates
        invariant 0 <= i <= nstates
        invariant forall m :: 0 <= m < i ==> states[m] != s
      {
        if states[i] == s {
          assert Contents()[i] == s;
          return true;
        }
        i := i + 1;
      }
      return false;
    }

    /** list_index: a linear scan returning the first position holding s, or -1. */
    method ListIndex(s: nat) returns (r: int)
      requires Valid()
      ensures r == IndexOf(Contents(), s)
    {
      var i := 0;
      while i < nstates
        invariant 0 <= i <= nstates
        invariant forall m :: 0 <= m < i ==> states[m] != s
      {
        if states[i] == s {
          IndexOfFirst(Contents(), i);
          return i;
        }
        i := i + 1;
      }
      return -1;
    }

    /**
     * list_add: stop if s is listed; otherwise append it, then add what its left
     * and then its right transition reach.
     */
    method ListAdd(g: seq<Node>, s: nat)
      requires Valid() && Complete(g) && states.Length == |g| && s < |g|
      requires Distinct(Contents()) && Below(Contents(), |g|)
      modifies this, states
      decreases |g| - nstates
      ensures Valid() && Contents() == ListAddSpec(g, old(Contents()), s)
    {
      var present := ListContains(s);
      if present {
        return;
      }
      ghost var v1 := Contents() + [s];
      assert Distinct(v1) && Below(v1, |g|);
      Pigeonhole(v1, |g|);
      states[nstates] := s;
      nstates := nstates + 1;
      assert Contents() == v1;
      ListAdd(g, g[s].left.value);
      ListAdd(g, g[s].right.value);
    }
  }

  /**
   * The listing half of get_states_list: an array of one entry per allocated
   * state, list_add from reset, then list_qsort over the whole list.
   */
  method CollectStates(g: seq<Node>, ghost parent: seq<nat>) returns (list: StatesList)
    requires Complete(g) && |parent| == |g| && Hooked(g, parent)
    requires g[Reset].value == [DontCare]
    requires forall k :: 1 <= k < |g| ==> IsBits(g[k].value) && |g[k].value| >= 1
    ensures fresh(list) && fresh(list.states)
    ensures list.Valid() && list.states.Length == |g| && list.nstates == |g|
    ensures multiset(list.Contents()) == multiset(ListAddSpec(g, [], Reset))
    ensures Distinct(list.Contents()) && Below(list.Contents(), |g|)
    ensures forall x: nat :: x < |g| ==> x in list.Contents()
    ensures list.Contents()[0] == Reset
  {
    list := Gather(g, parent);
    ghost var found := list.Contents();
    forall k | 0 < k < |found|
      ensures SeqCmp(g[found[k]].value, g[found[0]].value) > 0
    {
      assert found[k] != Reset;
      ResetRanksFirst(g[found[k]].value);
    }
    ListQsort(list.states, g, 0, list.nstates - 1);
    assert list.Contents() == list.states[..];
    PermutationKeepsDistinct(found, list.Contents());
    PermutationKeepsMembers(found, list.Contents());
  }

  /** The list_add call of get_states_list: a full list of the states, reset first, before sorting. */
  method Gather(g: seq<Node>, ghost parent: seq<nat>) returns (list: StatesList)
    requires Complete(g) && |parent| == |g| && Hooked(g, parent)
    ensures fresh(list) && fresh(list.states)
    ensures list.Valid() && list.states.Length == |g| && list.nstates == |g|
    ensures list.Contents() == ListAddSpec(g, [], Reset) && list.states[..] == list.Contents()
    ensures Distinct(list.Contents()) && Below(list.Contents(), |g|)
    ensures forall x: nat :: x < |g| ==> x in list.Contents()
    ensures list.Contents()[0] == Reset
  {
    list := new StatesList(|g|);
    list.ListAdd(g, Reset);
    ghost var found := list.Contents();
    ListAddClosed(g, [], Reset);
    assert found[0] == Reset;
    forall x: nat | x < |g|
      ensures x in found
    {
      ClosedListHoldsAll(g, parent, found, x);
    }
    Pigeonhole(found, |g|);
    Covering(found, |g|);
    assert list.states[..] == found;
  }

  /** A list holding every state of a complete arena is closed under its transitions. */
  lemma FullListClosed(g: seq<Node>, s: seq<nat>)
    requires Complete(g) && Below(s, |g|) && forall x: nat :: x < |g| ==> x in s
    ensures ChildrenListed(g, s)
  {
    forall k | 0 <= k < |s|
      ensures ChildrenOfListed(g, s, k)
    {
      var x := At(s, k);
      assert g[x].left.value < |g| && g[x].right.value < |g|;
    }
  }

  /**
   * get_states_list: build the graph from reset with the empty value, list the
   * states reachable from reset, then sort the whole list. Every transition of
   * the graph obeys the mode rule (`Ruled` from state 0 on).
   */
  method GetStatesList(pattern: seq<Sym>, mode: Mode) returns (sg: StateGraph, list: StatesList)
    requires 1 <= |pattern| <= MaxSeq
    ensures fresh(sg) && fresh(list) && fresh(list.states)
    ensures sg.Valid() && Complete(sg.nodes) && sg.pattern == pattern && sg.mode == mode
    ensures Ruled(sg.nodes, mode, pattern, 0, |sg.nodes|)
    ensures list.Valid() && list.states.Length == |sg.nodes| && list.nstates == sg.nstates
    ensures multiset(list.Contents()) == multiset(ListAddSpec(sg.nodes, [], Reset))
    ensures Distinct(list.Contents()) && Below(list.Contents(), |sg.nodes|)
    ensures forall x: nat :: x < |sg.nodes| ==> x in list.Contents()
    ensures ChildrenListed(sg.nodes, list.Contents())
    ensures list.Contents()[0] == Reset
  {
    sg := new StateGraph(pattern, mode);
    var _ := sg.CreateStates([], Reset);
    TreeIsHooked(sg.nodes, sg.parent, |pattern|);
    list := CollectStates(sg.nodes, sg.parent);
    FullListClosed(sg.nodes, list.Contents());
  }
}
