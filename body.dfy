/** Facts about the snake body: the ordered sequence of cells from head to tail. */
module SnakeBody {
  import opened SnakeTypes

  /** No cell occurs twice in the body. */
  predicate Distinct(s: seq<Position>) {
    |s| == 0 || (s[0] !in s[1..] && Distinct(s[1..]))
  }

  /** Cutting segments off the tail end keeps the body free of repeats. */
  lemma {:induction false} DistinctPrefix(s: seq<Position>, k: nat)
    requires Distinct(s)
    requires k <= |s|
    ensures Distinct(s[..k])
  {
    if k > 0 {
      DistinctPrefix(s[1..], k - 1);
      assert s[..k][1..] == s[1..][..k - 1];
    }
  }

  /** In a body without repeats the tail occurs nowhere in front of it. */
  lemma {:induction false} DistinctTail(s: seq<Position>)
    requires |s| > 0
    ensures Distinct(s) ==> s[|s| - 1] !in s[..|s| - 1]
  {
    if |s| > 1 && Distinct(s) {
      DistinctTail(s[1..]);
      assert s[1..][..|s| - 2] == s[1..|s| - 1];
      assert s[..|s| - 1] == [s[0]] + s[1..|s| - 1];
    }
  }

  /** Two positions in a body without repeats are the same segment only if they are the same index. */
  lemma {:induction false} DistinctIndices(s: seq<Position>, i: nat, j: nat)
    requires Distinct(s)
    requires i < j < |s|
    ensures s[i] != s[j]
  {
    if i > 0 {
      DistinctIndices(s[1..], i - 1, j - 1);
    } else {
      assert s[j] == s[1..][j - 1];
    }
  }

  /** Conversely, a body whose segments differ pairwise has no repeats. */
  lemma {:induction false} PairwiseDistinct(s: seq<Position>)
    requires forall i, j :: 0 <= i < j < |s| ==> s[i] != s[j]
    ensures Distinct(s)
  {
    if |s| > 0 {
      assert s[0] !in s[1..] by {
        forall k | 0 <= k < |s| - 1 ensures s[1..][k] != s[0] {
          assert s[1..][k] == s[k + 1];
        }
      }
      forall i, j | 0 <= i < j < |s| - 1 ensures s[1..][i] != s[1..][j] {
        assert s[1..][i] == s[i + 1] && s[1..][j] == s[j + 1];
      }
      PairwiseDistinct(s[1..]);
    }
  }

  /** Every segment shares an edge with the one in front of it: the snake is one connected chain. */
  predicate Chain(s: seq<Position>) {
    |s| <= 1 || (Adjacent(s[1], s[0]) && Chain(s[1..]))
  }

  ghost function Elements(s: seq<Position>): (cells: set<Position>) {
    set p | p in s
  }

  /** A body without repeated cells covers exactly as many cells as it has segments. */
  lemma {:induction false} DistinctCellCount(s: seq<Position>)
    requires Distinct(s)
    ensures |Elements(s)| == |s|
  {
    if s != [] {
      DistinctCellCount(s[1..]);
      assert Elements(s) == {s[0]} + Elements(s[1..]);
    }
  }

  /** Along a chain the chequerboard colour alternates, so the tail's colour is fixed by the length. */
  lemma {:induction false} ChainParity(s: seq<Position>)
    requires Chain(s)
    requires |s| >= 1
    ensures Parity(s[|s| - 1]) == (Parity(s[0]) + |s| - 1) % 2
  {
    if |s| > 1 {
      ChainParity(s[1..]);
      AdjacentFlipsParity(s[1], s[0]);
    }
  }

  /** The head of a chain can touch its tail only when the chain has even length. */
  lemma HeadTouchesTailOnlyIfEven(s: seq<Position>)
    requires Chain(s)
    requires |s| >= 1
    requires Adjacent(s[0], s[|s| - 1])
    ensures |s| % 2 == 0
  {
    ChainParity(s);
    AdjacentFlipsParity(s[0], s[|s| - 1]);
  }

  /** Cutting segments off the tail end leaves a chain. */
  lemma {:induction false} ChainPrefix(s: seq<Position>, k: nat)
    requires Chain(s)
    requires k <= |s|
    ensures Chain(s[..k])
  {
    if k > 1 {
      ChainPrefix(s[1..], k - 1);
      assert s[..k][1..] == s[1..][..k - 1];
    }
  }

  /** A new head next to the old one, with the tail dropped, is still a chain. */
  lemma SlideKeepsChain(s: seq<Position>, h: Position)
    requires Chain(s) && |s| >= 1 && Adjacent(s[0], h)
    ensures Chain([h] + s[..|s| - 1])
  {
    ChainPrefix(s, |s| - 1);
    assert ([h] + s[..|s| - 1])[1..] == s[..|s| - 1];
  }

  /** A new head next to the old one, with the tail kept, is still a chain. */
  lemma GrowKeepsChain(s: seq<Position>, h: Position)
    requires Chain(s) && |s| >= 1 && Adjacent(s[0], h)
    ensures Chain([h] + s)
  {
    assert ([h] + s)[1..] == s;
  }
}
