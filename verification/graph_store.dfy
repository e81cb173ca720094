/**
 * The dense graph both sorters read: an n-by-n int matrix in which 1 marks
 * an edge i -> j ("i must come before j"), the in-degree counters built from
 * the edge records, and what acyclic means for such a matrix.
 */
module GraphStore {
  import opened NodeSeqs

  /** Edge i -> j: matrix[i][j] holds 1. Indices outside the matrix carry no edge. */
  ghost predicate Edge(m: array2<int>, i: int, j: int)
    reads m
  {
    0 <= i < m.Length0 && 0 <= j < m.Length1 && m[i, j] == 1
  }

  /** The predecessors of j: every i with an edge i -> j. */
  ghost function Preds(m: array2<int>, j: int): (r: set<int>)
    reads m
    ensures forall i :: i in r <==> Edge(m, i, j)
  {
    set i | 0 <= i < m.Length0 && Edge(m, i, j)
  }

  /**
   * The counters are the static in-degrees: d[j] is the number of
   * predecessors of j.
   */
  ghost predicate CountsPreds(m: array2<int>, d: seq<int>)
    reads m
  {
    forall j :: 0 <= j < |d| ==> d[j] == |Preds(m, j)|
  }

  /** How many elements of s have an edge into j. */
  ghost function CountFrom(m: array2<int>, s: seq<int>, j: int): nat
    reads m
  {
    if s == [] then 0
    else CountFrom(m, s[..|s| - 1], j) + (if Edge(m, s[|s| - 1], j) then 1 else 0)
  }

  /** Every element of s has all its predecessors earlier in s. */
  ghost predicate PredecessorsFirst(m: array2<int>, s: seq<int>)
    reads m
  {
    forall b, p :: 0 <= b < |s| && Edge(m, p, s[b]) ==> p in s[..b]
  }

  /** A closed walk c[0] -> c[1] -> ... -> c[|c| - 1] -> c[0] (a self-loop has length 1). */
  ghost predicate IsCycle(m: array2<int>, c: seq<int>)
    reads m
  {
    && |c| >= 1
    && (forall k :: 0 <= k < |c| - 1 ==> Edge(m, c[k], c[k + 1]))
    && Edge(m, c[|c| - 1], c[0])
  }

  ghost predicate Acyclic(m: array2<int>)
    reads m
  {
    forall c :: !IsCycle(m, c)
  }

  /**
   * Counting the emitted predecessors: for a repetition-free s, CountFrom
   * never exceeds the in-degree, and reaches it exactly when every
   * predecessor of j is in s.
   */
  lemma {:induction false} CountFromBound(m: array2<int>, s: seq<int>, j: int)
    requires Distinct(s)
    ensures CountFrom(m, s, j) == |set p | p in s && Edge(m, p, j)|
    ensures CountFrom(m, s, j) <= |Preds(m, j)|
    ensures CountFrom(m, s, j) == |Preds(m, j)| <==> forall p :: Edge(m, p, j) ==> p in s
  {
    var a := set p | p in s && Edge(m, p, j);
    if s != [] {
      var t, x := s[..|s| - 1], s[|s| - 1];
      DistinctPrefix(s, |s| - 1);
      CountFromBound(m, t, j);
      var a' := set p | p in t && Edge(m, p, j);
      assert x !in t;
      if Edge(m, x, j) {
        assert a == a' + {x};
      } else {
        assert a == a';
      }
    } else {
      assert a == {};
    }
    SubsetCard(a, Preds(m, j));
    if forall p :: Edge(m, p, j) ==> p in s {
      assert a == Preds(m, j);
    }
  }

  /**
   * The edges of a predecessors-first sequence all point forward: the
   * position of i is smaller than the position of j for every edge i -> j.
   */
  lemma EdgesGoForward(m: array2<int>, s: seq<int>)
    requires Distinct(s) && PredecessorsFirst(m, s)
    ensures forall a, b :: 0 <= a < |s| && 0 <= b < |s| && Edge(m, s[a], s[b]) ==> a < b
  {
    forall a, b | 0 <= a < |s| && 0 <= b < |s| && Edge(m, s[a], s[b])
      ensures a < b
    {
      assert s[a] in s[..b];
      var a' :| 0 <= a' < b && s[..b][a'] == s[a];
      assert s[a'] == s[a];
    }
  }

  /** Along a walk c[0] -> ... -> c[k], positions in a predecessors-first s increase. */
  lemma {:induction false} WalkClimbs(m: array2<int>, s: seq<int>, c: seq<int>, k: nat, pos: seq<int>)
    requires Distinct(s) && PredecessorsFirst(m, s)
    requires |pos| == |c| && 1 <= k < |c|
    requires forall i :: 0 <= i < |c| ==> 0 <= pos[i] < |s| && s[pos[i]] == c[i]
    requires forall i :: 0 <= i < |c| - 1 ==> Edge(m, c[i], c[i + 1])
    ensures pos[0] < pos[k]
  {
    EdgesGoForward(m, s);
    assert Edge(m, s[pos[k - 1]], s[pos[k]]);
    if k > 1 {
      WalkClimbs(m, s, c, k - 1, pos);
    }
  }

  /**
   * A graph whose nodes can all be listed predecessors-first has no cycle:
   * a complete topological order rules out every cycle.
   */
  lemma OrderedImpliesAcyclic(m: array2<int>, s: seq<int>)
    requires m.Length0 == m.Length1
    requires Distinct(s) && PredecessorsFirst(m, s)
    requires forall v :: 0 <= v < m.Length0 ==> v in s
    ensures Acyclic(m)
  {
    forall c | IsCycle(m, c)
      ensures false
    {
      assert forall i :: 0 <= i < |c| - 1 ==> Edge(m, c[i], c[i + 1]);
      forall i | 0 <= i < |c|
        ensures c[i] in s
      {
        if i < |c| - 1 {
          assert Edge(m, c[i], c[i + 1]);
        } else {
          assert Edge(m, c[i], c[0]);
        }
      }
      var pos := seq(|c|, i requires 0 <= i < |c| => PositionOf(s, c[i]));
      EdgesGoForward(m, s);
      assert Edge(m, s[pos[|c| - 1]], s[pos[0]]);
      if |c| > 1 {
        WalkClimbs(m, s, c, |c| - 1, pos);
      }
    }
  }

  /** Some predecessor of x lies in u. */
  ghost predicate HasPredIn(m: array2<int>, u: set<int>, x: int)
    reads m
  {
    exists p :: p in u && Edge(m, p, x)
  }

  /** Every node of u has a predecessor inside u: u contains no source. */
  ghost predicate NoSourceIn(m: array2<int>, u: set<int>)
    reads m
  {
    forall x {:trigger HasPredIn(m, u, x)} :: x in u ==> HasPredIn(m, u, x)
  }

  /**
   * A walk of k + 1 nodes inside U, built backwards: every node of U has a
   * predecessor in U, so the walk can always be extended at its start.
   */
  lemma {:induction false} WalkInside(m: array2<int>, u: set<int>, start: int, k: nat) returns (w: seq<int>)
    requires start in u && NoSourceIn(m, u)
    ensures |w| == k + 1
    ensures forall i :: 0 <= i < |w| ==> w[i] in u && 0 <= w[i] < m.Length1
    ensures forall i :: 0 <= i < |w| - 1 ==> Edge(m, w[i], w[i + 1])
  {
    assert HasPredIn(m, u, start);
    if k == 0 {
      w := [start];
    } else {
      var w' := WalkInside(m, u, start, k - 1);
      assert HasPredIn(m, u, w'[0]);
      var p :| p in u && Edge(m, p, w'[0]);
      assert HasPredIn(m, u, p);
      w := [p] + w';
    }
  }

  /**
   * If every node of a non-empty set has a predecessor inside the set, the
   * graph has a cycle.
   */
  lemma NoSourceMeansCycle(m: array2<int>, u: set<int>, start: int)
    requires start in u && NoSourceIn(m, u)
    ensures !Acyclic(m)
  {
    var w := WalkInside(m, u, start, m.Length1);
    if Distinct(w) {
      DistinctInRangeBound(w, m.Length1);
      assert false;
    }
    var a, b :| 0 <= a < b < |w| && w[a] == w[b];
    var c := w[a..b];
    assert Edge(m, w[b - 1], w[b]);
    assert IsCycle(m, c);
  }

  /**
   * Kahn's completeness argument. Let done be what has been emitted, d the
   * counters, d0 the static in-degrees, and let every counter have dropped
   * by one per emitted predecessor. If every node that is not emitted still
   * has a non-zero counter, then either all nodes are emitted or the graph
   * has a cycle.
   */
  lemma BlockedNodesImplyCycle(m: array2<int>, d0: seq<int>, d: seq<int>, done: seq<int>)
    requires m.Length0 == m.Length1 == |d0| == |d|
    requires CountsPreds(m, d0)
    requires Distinct(done) && InRange(done, |d|)
    requires forall v :: 0 <= v < |d| ==> d[v] == d0[v] - CountFrom(m, done, v)
    requires forall v :: 0 <= v < |d| && v !in done ==> d[v] != 0
    ensures Acyclic(m) ==> forall v :: 0 <= v < |d| ==> v in done
  {
    var n := |d|;
    if v0 :| 0 <= v0 < n && v0 !in done {
      var u := set v | 0 <= v < n && v !in done;
      forall x | x in u
        ensures HasPredIn(m, u, x)
      {
        CountFromBound(m, done, x);
        var p :| Edge(m, p, x) && p !in done;
        assert p in u;
      }
      NoSourceMeansCycle(m, u, v0);
    }
  }

  /** How many edge records point into j: what reading them adds to counter j. */
  function CountTargets(edges: seq<(int, int)>, j: int): nat
  {
    if edges == [] then 0
    else CountTargets(edges[..|edges| - 1], j) + (if edges[|edges| - 1].1 == j then 1 else 0)
  }

  /** The sources of the records that point into j. */
  ghost function RecordedSources(edges: seq<(int, int)>, j: int): set<int>
  {
    set e | e in edges && e.1 == j :: e.0
  }

  predicate NoRepeatedRecords(edges: seq<(int, int)>)
  {
    forall a, b :: 0 <= a < b < |edges| ==> edges[a] != edges[b]
  }

  /**
   * Without repeated records, the counter of j ends up equal to the number
   * of distinct sources recorded for j.
   */
  lemma {:induction false} DistinctRecordsCount(edges: seq<(int, int)>, j: int)
    requires NoRepeatedRecords(edges)
    ensures CountTargets(edges, j) == |RecordedSources(edges, j)|
  {
    if edges != [] {
      var t, e := edges[..|edges| - 1], edges[|edges| - 1];
      assert NoRepeatedRecords(t);
      DistinctRecordsCount(t, j);
      if e.1 == j {
        assert RecordedSources(edges, j) == RecordedSources(t, j) + {e.0};
        assert e.0 !in RecordedSources(t, j);
      } else {
        assert RecordedSources(edges, j) == RecordedSources(t, j);
      }
    } else {
      assert RecordedSources(edges, j) == {};
    }
  }
}
