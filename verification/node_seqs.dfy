/**
 * Sequences of node indices: the queues and the result array of both sorters
 * hold indices in [0, nodes_count), and their correctness rests on each index
 * occurring at most once.
 */
module NodeSeqs {

  /** No index occurs twice. */
  predicate Distinct(s: seq<int>)
  {
    forall a, b :: 0 <= a < b < |s| ==> s[a] != s[b]
  }

  /** Every element is a node index of an n-node graph. */
  predicate InRange(s: seq<int>, n: int)
  {
    forall k :: 0 <= k < |s| ==> 0 <= s[k] < n
  }

  /** The node indices 0, 1, ..., n - 1 as a set. */
  ghost function Nodes(n: nat): (r: set<int>)
    ensures forall v :: v in r <==> 0 <= v < n
  {
    if n == 0 then {} else Nodes(n - 1) + {n - 1}
  }

  /** The elements of a sequence as a set. */
  ghost function Elems(s: seq<int>): set<int>
  {
    set x | x in s
  }

  /**
   * The indices v in [lo, hi) with d[v] == 0, in ascending order: what a scan
   * of that range pushes when it pushes every node whose counter is zero.
   */
  function ZerosIn(d: seq<int>, lo: int, hi: int): seq<int>
    requires 0 <= lo <= hi <= |d|
    decreases hi - lo
  {
    if hi == lo then []
    else ZerosIn(d, lo, hi - 1) + (if d[hi - 1] == 0 then [hi - 1] else [])
  }

  /**
   * The scan of [lo, hi) yields exactly the indices in that range whose
   * counter is zero, each once, in strictly ascending order.
   */
  lemma {:induction false} ZerosInMembers(d: seq<int>, lo: int, hi: int)
    requires 0 <= lo <= hi <= |d|
    ensures forall v :: v in ZerosIn(d, lo, hi) <==> lo <= v < hi && d[v] == 0
    ensures forall a, b :: 0 <= a < b < |ZerosIn(d, lo, hi)| ==> ZerosIn(d, lo, hi)[a] < ZerosIn(d, lo, hi)[b]
    ensures forall k :: 0 <= k < |ZerosIn(d, lo, hi)| ==> lo <= ZerosIn(d, lo, hi)[k] < hi
    ensures Distinct(ZerosIn(d, lo, hi))
    decreases hi - lo
  {
    if hi > lo {
      ZerosInMembers(d, lo, hi - 1);
    }
  }

  /** Where x stands in s. */
  function PositionOf(s: seq<int>, x: int): (k: nat)
    requires x in s
    ensures k < |s| && s[k] == x
  {
    if s[0] == x then 0 else 1 + PositionOf(s[1..], x)
  }

  /** Concatenation regroups freely. */
  lemma ConcatAssoc(a: seq<int>, b: seq<int>, c: seq<int>)
    ensures (a + b) + c == a + (b + c)
  {
  }

  lemma DistinctPrefix(s: seq<int>, k: nat)
    requires Distinct(s) && k <= |s|
    ensures Distinct(s[..k])
  {
  }

  lemma DistinctSnoc(s: seq<int>, x: int)
    requires Distinct(s) && x !in s
    ensures Distinct(s + [x])
  {
  }

  /** A sequence without repetitions has as many elements as its set. */
  lemma {:induction false} DistinctCard(s: seq<int>)
    requires Distinct(s)
    ensures |Elems(s)| == |s|
  {
    if s != [] {
      var t := s[..|s| - 1];
      DistinctPrefix(s, |s| - 1);
      DistinctCard(t);
      assert Elems(s) == Elems(t) + {s[|s| - 1]};
      assert s[|s| - 1] !in Elems(t);
    }
  }

  lemma {:induction false} NodesCard(n: nat)
    ensures |Nodes(n)| == n
  {
    if n > 0 {
      NodesCard(n - 1);
    }
  }

  /** A subset is no larger, and only an equal set is as large. */
  lemma SubsetCard(a: set<int>, b: set<int>)
    requires a <= b
    ensures |a| <= |b|
    ensures |a| == |b| ==> a == b
  {
    assert b == a + (b - a);
    assert a * (b - a) == {};
    if |a| == |b| {
      assert |b - a| == 0;
    }
  }

  /**
   * Pigeonhole: a repetition-free sequence of node indices of an n-node graph
   * has at most n elements, and exactly n when it names every node.
   */
  lemma DistinctInRangeBound(s: seq<int>, n: nat)
    requires Distinct(s) && InRange(s, n)
    ensures |s| <= n
    ensures |s| == n <==> forall v :: 0 <= v < n ==> v in s
  {
    DistinctCard(s);
    NodesCard(n);
    assert Elems(s) <= Nodes(n);
    SubsetCard(Elems(s), Nodes(n));
    if forall v :: 0 <= v < n ==> v in s {
      assert Elems(s) == Nodes(n);
    }
    if |s| == n {
      forall v | 0 <= v < n ensures v in s {
        assert v in Nodes(n);
      }
    }
  }
}
