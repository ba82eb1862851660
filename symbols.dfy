/** Symbols of patterns and labels, and the comparisons fsm.c makes on them. */
module Symbols {

  /** A character of a pattern or of a label: '0', '1' or the don't care '-'. */
  datatype Sym = Zero | One | DontCare

  /** The three overlap modes, in the order of the source's enum. */
  datatype Mode = NotOverlapping | PartiallyOverlapping | TotallyOverlapping

  /** Longest pattern the program accepts. */
  const MaxSeq: nat := 4

  /** The character code `strcmp` sees for a symbol ('-', '0', '1'). */
  function Code(c: Sym): int
  {
    match c
    case DontCare => 45
    case Zero => 48
    case One => 49
  }

  /** A label built by the automaton holds only '0' and '1'. */
  predicate IsBits(s: seq<Sym>)
  {
    forall k :: 0 <= k < |s| ==> s[k] != DontCare
  }

  /** A pattern symbol accepts a value symbol when it is '-' or the same symbol. */
  predicate SymMatches(p: Sym, c: Sym)
  {
    p == DontCare || p == c
  }

  /** The value has the pattern's length and the pattern accepts it at every position. */
  predicate Matches(pattern: seq<Sym>, value: seq<Sym>)
  {
    |pattern| == |value| && forall k :: 0 <= k < |pattern| ==> SymMatches(pattern[k], value[k])
  }

  /** The pattern accepts the value at each of the first min(n, |pattern|) positions. */
  predicate PrefixMatches(pattern: seq<Sym>, value: seq<Sym>, n: nat)
    requires n <= |value| || |pattern| <= |value|
  {
    forall k :: 0 <= k < n && k < |pattern| ==> SymMatches(pattern[k], value[k])
  }

  /** valuescmp: 0 when the value equals the pattern (with don't cares), 1 otherwise. */
  method ValuesCmp(pattern: seq<Sym>, value: seq<Sym>) returns (r: int)
    ensures r == 0 || r == 1
    ensures r == 0 <==> Matches(pattern, value)
  {
    if |pattern| != |value| {
      return 1;
    }
    var k := 0;
    while k < |pattern|
      invariant 0 <= k <= |pattern|
      invariant forall m :: 0 <= m < k ==> SymMatches(pattern[m], value[m])
    {
      if pattern[k] != DontCare && pattern[k] != value[k] {
        return 1;
      }
      k := k + 1;
    }
    return 0;
  }

  /** valuesncmp: 0 when the first n symbols agree; the walk stops at the end of the pattern. */
  method ValuesNCmp(pattern: seq<Sym>, value: seq<Sym>, n: nat) returns (r: int)
    requires n <= |value| || |pattern| <= |value|
    ensures r == 0 || r == 1
    ensures r == 0 <==> PrefixMatches(pattern, value, n)
  {
    var k := 0;
    while k < n && k < |pattern|
      invariant 0 <= k <= n && k <= |pattern|
      invariant forall m :: 0 <= m < k ==> SymMatches(pattern[m], value[m])
    {
      if pattern[k] != DontCare && pattern[k] != value[k] {
        return 1;
      }
      k := k + 1;
    }
    return 0;
  }

  /** A full-length prefix match is an exact match; used to bound the labels of new states. */
  lemma PrefixAtFullLength(pattern: seq<Sym>, value: seq<Sym>)
    requires |value| == |pattern|
    ensures PrefixMatches(pattern, value, |value|) <==> Matches(pattern, value)
  {
  }

  /** -1, 0 or 1 as x is negative, zero or positive. */
  function Sign(x: int): int
  {
    if x < 0 then -1 else if x == 0 then 0 else 1
  }

  /**
   * The C library's `strcmp`, by sign only: the first differing character
   * decides, and the string that ends first (its terminator is 0) is smaller.
   */
  function Strcmp(a: seq<Sym>, b: seq<Sym>): (r: int)
    ensures r == -1 || r == 0 || r == 1
    ensures r == 0 <==> a == b
  {
    if a == [] && b == [] then 0
    else if a == [] then -1
    else if b == [] then 1
    else if a[0] != b[0] then Sign(Code(a[0]) - Code(b[0]))
    else
      assert a == [a[0]] + a[1..] && b == [b[0]] + b[1..];
      Strcmp(a[1..], b[1..])
  }

  /** seqcmp: shorter labels come first, labels of one length are ordered by `strcmp`. */
  function SeqCmp(s1: seq<Sym>, s2: seq<Sym>): (r: int)
    ensures r == 0 <==> s1 == s2
    ensures |s1| < |s2| ==> r < 0
    ensures |s1| > |s2| ==> r > 0
  {
    if |s1| != |s2| then |s1| - |s2| else Strcmp(s1, s2)
  }

  lemma {:induction false} StrcmpAntisymmetric(a: seq<Sym>, b: seq<Sym>)
    ensures Strcmp(a, b) == -Strcmp(b, a)
  {
    if a != [] && b != [] && a[0] == b[0] {
      StrcmpAntisymmetric(a[1..], b[1..]);
    }
  }

  /** Swapping the arguments of seqcmp flips the sign of its answer. */
  lemma SeqCmpAntisymmetric(s1: seq<Sym>, s2: seq<Sym>)
    ensures Sign(SeqCmp(s1, s2)) == -Sign(SeqCmp(s2, s1))
  {
    StrcmpAntisymmetric(s1, s2);
  }

  /** The reset label "-" ranks strictly below every label of '0's and '1's. */
  lemma ResetRanksFirst(s: seq<Sym>)
    requires IsBits(s) && |s| >= 1
    ensures SeqCmp(s, [DontCare]) > 0
  {
    if |s| == 1 {
      assert s[0] != DontCare;
    }
  }
}
