/** The greedy anchor clusterer of `filter_and_group_points`: each record joins
    the first group whose first member (its anchor) is close to it, or opens a
    new group when no anchor is. */
module Clusterer {
  import opened Detection
  import opened Sequences
  import ObservationFilter

  /** Largest coordinate difference, in pixels, at which two records are close. */
  const Tolerance: int := 15

  function Abs(n: int): nat
  {
    if n < 0 then -n else n
  }

  /** `are_points_close`: all four corner coordinates differ by at most the tolerance. */
  predicate Close(p: Record, q: Record)
  {
    && Abs(p.topLeft.x - q.topLeft.x) <= Tolerance
    && Abs(p.topLeft.y - q.topLeft.y) <= Tolerance
    && Abs(p.bottomRight.x - q.bottomRight.x) <= Tolerance
    && Abs(p.bottomRight.y - q.bottomRight.y) <= Tolerance
  }

  predicate NonEmptyGroups(groups: seq<seq<Record>>)
  {
    forall j :: 0 <= j < |groups| ==> |groups[j]| > 0
  }

  /** The first member of every group, in group order. */
  function Anchors(groups: seq<seq<Record>>): (a: seq<Record>)
    requires NonEmptyGroups(groups)
    ensures |a| == |groups|
    ensures forall j :: 0 <= j < |groups| ==> a[j] == groups[j][0]
  {
    seq(|groups|, j requires 0 <= j < |groups| => groups[j][0])
  }

  /** The index of the first group, at `from` or later, whose anchor is close
      to `p`, or `|groups|` when there is none: the inner `for group` loop. */
  function FirstCloseGroup(groups: seq<seq<Record>>, p: Record, from: nat): (j: nat)
    requires NonEmptyGroups(groups) && from <= |groups|
    ensures from <= j <= |groups|
    ensures j < |groups| ==> Close(p, groups[j][0])
    ensures forall i :: from <= i < j ==> !Close(p, groups[i][0])
    decreases |groups| - from
  {
    if from == |groups| then from
    else if Close(p, groups[from][0]) then from
    else FirstCloseGroup(groups, p, from + 1)
  }

  /** One step of the grouping loop: append `p` to the first group with a close
      anchor, or open the new group `[p]`. */
  function Insert(groups: seq<seq<Record>>, p: Record): (r: seq<seq<Record>>)
    requires NonEmptyGroups(groups)
    ensures NonEmptyGroups(r)
    ensures |groups| <= |r| <= |groups| + 1
  {
    var j := FirstCloseGroup(groups, p, 0);
    if j < |groups| then groups[j := groups[j] + [p]] else groups + [[p]]
  }

  /** The groups the loop has built after the records `ps`, in order. */
  function Grouping(ps: seq<Record>): (groups: seq<seq<Record>>)
    ensures NonEmptyGroups(groups)
    ensures |groups| <= |ps|
  {
    if |ps| == 0 then [] else Insert(Grouping(Init(ps)), Last(ps))
  }

  lemma {:induction false} GroupingSnoc(ps: seq<Record>, p: Record)
    ensures Grouping(ps + [p]) == Insert(Grouping(ps), p)
  {
    InitOfSnoc(ps, p);
  }

  /** Each member is close to its group's anchor, and not close to the anchor
      of any earlier group. */
  ghost predicate Anchored(groups: seq<seq<Record>>)
  {
    && NonEmptyGroups(groups)
    && (forall j, k :: 0 <= j < |groups| && 0 <= k < |groups[j]| ==> Close(groups[j][k], groups[j][0]))
    && (forall i, j, k :: 0 <= i < j < |groups| && 0 <= k < |groups[j]| ==> !Close(groups[j][k], groups[i][0]))
  }

  /** The groups split `ps`: together they hold every record of `ps` exactly as
      often as `ps` does, and each group, like the sequence of anchors, keeps
      the order of `ps`. */
  ghost predicate Partitions(groups: seq<seq<Record>>, ps: seq<Record>)
  {
    && NonEmptyGroups(groups)
    && multiset(Flatten(groups)) == multiset(ps)
    && (forall j :: 0 <= j < |groups| ==> IsSubseq(groups[j], ps))
    && IsSubseq(Anchors(groups), ps)
  }

  lemma {:induction false} CloseReflexive(p: Record)
    ensures Close(p, p)
  {
  }

  lemma {:induction false} CloseSymmetric(p: Record, q: Record)
    ensures Close(p, q) <==> Close(q, p)
  {
  }

  /** Closeness is not transitive, which is why only anchors are compared. */
  lemma {:induction false} CloseNotTransitive()
    ensures exists p, q, r :: Close(p, q) && Close(q, r) && !Close(p, r)
  {
    var p := Record("1", 1.0, Point(0, 0), Point(0, 0), 1.0, 30.0);
    var q := p.(topLeft := Point(10, 0));
    var r := p.(topLeft := Point(20, 0));
    assert Close(p, q) && Close(q, r) && !Close(p, r);
  }

  /** A record joins group `j` exactly when `j`'s anchor is the first close one. */
  lemma {:induction false} InsertJoinsFirstCloseGroup(groups: seq<seq<Record>>, p: Record, j: nat)
    requires NonEmptyGroups(groups) && j < |groups|
    requires Close(p, groups[j][0])
    requires forall i :: 0 <= i < j ==> !Close(p, groups[i][0])
    ensures Insert(groups, p) == groups[j := groups[j] + [p]]
  {
  }

  /** A record opens a new group exactly when no anchor is close to it. */
  lemma {:induction false} InsertOpensGroup(groups: seq<seq<Record>>, p: Record)
    requires NonEmptyGroups(groups)
    ensures (forall i :: 0 <= i < |groups| ==> !Close(p, groups[i][0])) <==> Insert(groups, p) == groups + [[p]]
  {
    var f := FirstCloseGroup(groups, p, 0);
    if f < |groups| {
      assert Insert(groups, p)[f] == groups[f] + [p];
      assert |Insert(groups, p)| == |groups|;
    }
  }

  lemma {:induction false} InsertKeepsAnchored(groups: seq<seq<Record>>, p: Record)
    requires Anchored(groups)
    ensures Anchored(Insert(groups, p))
  {
    var f := FirstCloseGroup(groups, p, 0);
    var r := Insert(groups, p);
    if f < |groups| {
      forall j, k | 0 <= j < |r| && 0 <= k < |r[j]|
        ensures Close(r[j][k], r[j][0])
      {
        if j == f && k == |groups[j]| {
          CloseSymmetric(p, groups[j][0]);
        } else {
          assert r[j][k] == groups[j][k];
        }
      }
      forall i, j, k | 0 <= i < j < |r| && 0 <= k < |r[j]|
        ensures !Close(r[j][k], r[i][0])
      {
        if j == f && k == |groups[j]| {
        } else {
          assert r[j][k] == groups[j][k];
        }
      }
    } else {
      forall j, k | 0 <= j < |r| && 0 <= k < |r[j]|
        ensures Close(r[j][k], r[j][0])
      {
        if j < |groups| {
          assert r[j] == groups[j];
        }
      }
      forall i, j, k | 0 <= i < j < |r| && 0 <= k < |r[j]|
        ensures !Close(r[j][k], r[i][0])
      {
        if j < |groups| {
          assert r[j] == groups[j];
        }
      }
    }
  }

  lemma {:induction false} JoinKeepsPartitions(groups: seq<seq<Record>>, ps: seq<Record>, p: Record, f: nat)
    requires Partitions(groups, ps) && f < |groups|
    ensures Partitions(groups[f := groups[f] + [p]], ps + [p])
  {
    var r := groups[f := groups[f] + [p]];
    FlattenUpdateSnoc(groups, f, p);
    forall j | 0 <= j < |r|
      ensures IsSubseq(r[j], ps + [p])
    {
      if j == f {
        SubseqSnocBoth(groups[j], ps, p);
      } else {
        SubseqSnocRight(groups[j], ps, p);
      }
    }
    assert Anchors(r) == Anchors(groups);
    SubseqSnocRight(Anchors(groups), ps, p);
  }

  lemma {:induction false} OpenKeepsPartitions(groups: seq<seq<Record>>, ps: seq<Record>, p: Record)
    requires Partitions(groups, ps)
    ensures Partitions(groups + [[p]], ps + [p])
  {
    var r := groups + [[p]];
    FlattenSnoc(groups, [p]);
    OpenKeepsOrder(groups, ps, p);
    OpenAddsAnchor(groups, p);
    SubseqSnocBoth(Anchors(groups), ps, p);
  }

  lemma {:induction false} OpenKeepsOrder(groups: seq<seq<Record>>, ps: seq<Record>, p: Record)
    requires forall j :: 0 <= j < |groups| ==> IsSubseq(groups[j], ps)
    ensures forall j :: 0 <= j < |groups + [[p]]| ==> IsSubseq((groups + [[p]])[j], ps + [p])
  {
    var r := groups + [[p]];
    forall j | 0 <= j < |r|
      ensures IsSubseq(r[j], ps + [p])
    {
      if j < |groups| {
        assert r[j] == groups[j];
        SubseqSnocRight(groups[j], ps, p);
      } else {
        assert r[j] == [p];
        SubseqSingleton(ps, p);
      }
    }
  }

  lemma {:induction false} OpenAddsAnchor(groups: seq<seq<Record>>, p: Record)
    requires NonEmptyGroups(groups)
    ensures NonEmptyGroups(groups + [[p]])
    ensures Anchors(groups + [[p]]) == Anchors(groups) + [p]
  {
    var r := groups + [[p]];
    forall j | 0 <= j < |r| ensures |r[j]| > 0 && Anchors(r)[j] == (Anchors(groups) + [p])[j] {
      if j < |groups| { assert r[j] == groups[j]; }
    }
  }

  lemma {:induction false} InsertKeepsPartitions(groups: seq<seq<Record>>, ps: seq<Record>, p: Record)
    requires Partitions(groups, ps)
    ensures Partitions(Insert(groups, p), ps + [p])
  {
    var f := FirstCloseGroup(groups, p, 0);
    if f < |groups| {
      JoinKeepsPartitions(groups, ps, p, f);
    } else {
      OpenKeepsPartitions(groups, ps, p);
    }
  }

  lemma {:induction false} GroupingAnchored(ps: seq<Record>)
    ensures Anchored(Grouping(ps))
  {
    if |ps| > 0 {
      GroupingAnchored(Init(ps));
      InsertKeepsAnchored(Grouping(Init(ps)), Last(ps));
    }
  }

  lemma {:induction false} GroupingPartitions(ps: seq<Record>)
    ensures Partitions(Grouping(ps), ps)
  {
    if |ps| > 0 {
      var front, p := Init(ps), Last(ps);
      GroupingPartitions(front);
      InsertKeepsPartitions(Grouping(front), front, p);
      assert front + [p] == ps;
    }
  }

  /** The grouping is a partition of its input whose groups are anchored. */
  lemma {:induction false} GroupingInvariant(ps: seq<Record>)
    ensures Anchored(Grouping(ps))
    ensures Partitions(Grouping(ps), ps)
  {
    GroupingAnchored(ps);
    GroupingPartitions(ps);
  }

  /** Every record of the input is in exactly as many group slots as it occurs,
      every group is non-empty and keeps the input order, and there are no
      more groups than records. */
  lemma {:induction false} GroupingIsPartition(ps: seq<Record>)
    ensures multiset(Flatten(Grouping(ps))) == multiset(ps)
    ensures forall j :: 0 <= j < |Grouping(ps)| ==>
              |Grouping(ps)[j]| > 0 && IsSubseq(Grouping(ps)[j], ps)
    ensures |Grouping(ps)| <= |ps|
  {
    GroupingInvariant(ps);
  }

  /** Every member is close to its group's anchor and to no earlier group's anchor. */
  lemma {:induction false} GroupingMembersJoinFirstCloseAnchor(ps: seq<Record>)
    ensures forall j, k :: 0 <= j < |Grouping(ps)| && 0 <= k < |Grouping(ps)[j]| ==>
              Close(Grouping(ps)[j][k], Grouping(ps)[j][0])
    ensures forall i, j, k :: 0 <= i < j < |Grouping(ps)| && 0 <= k < |Grouping(ps)[j]| ==>
              !Close(Grouping(ps)[j][k], Grouping(ps)[i][0])
  {
    GroupingInvariant(ps);
  }

  /** Anchors are pairwise not close (hence pairwise distinct), and the groups
      come in the order in which their anchors occur in the input. */
  lemma {:induction false} GroupingAnchorsApartAndOrdered(ps: seq<Record>)
    ensures forall i, j :: 0 <= i < |Grouping(ps)| && 0 <= j < |Grouping(ps)| && i != j ==>
              !Close(Grouping(ps)[i][0], Grouping(ps)[j][0])
    ensures IsSubseq(Anchors(Grouping(ps)), ps)
  {
    var g := Grouping(ps);
    GroupingInvariant(ps);
    forall i, j | 0 <= i < |g| && 0 <= j < |g| && i != j
      ensures !Close(g[i][0], g[j][0])
    {
      if i < j {
        CloseSymmetric(g[i][0], g[j][0]);
      }
    }
  }

  /** Records that are all close to the first one form a single group. */
  lemma {:induction false} GroupingAllCloseToFirst(ps: seq<Record>)
    requires |ps| > 0
    requires forall k :: 0 <= k < |ps| ==> Close(ps[k], ps[0])
    ensures Grouping(ps) == [ps]
  {
    if |ps| == 1 {
      assert Init(ps) == [];
      assert Insert([], ps[0]) == [[ps[0]]];
      assert ps == [ps[0]];
    } else {
      var front := Init(ps);
      assert front[0] == ps[0];
      GroupingAllCloseToFirst(front);
      InsertJoinsFirstCloseGroup([front], Last(ps), 0);
      assert front + [Last(ps)] == ps;
    }
  }

  /** Two close records form one group. */
  lemma {:induction false} GroupingOfClosePair(a: Record, b: Record)
    requires Close(b, a)
    ensures Grouping([a, b]) == [[a, b]]
  {
    GroupingSnoc([], a);
    assert [] + [a] == [a];
    InsertOpensGroup([], a);
    assert Grouping([a]) == [[a]];
    GroupingSnoc([a], b);
    assert [a] + [b] == [a, b];
    InsertJoinsFirstCloseGroup([[a]], b, 0);
    assert [[a]][0 := [a, b]] == [[a, b]];
  }

  /** Grouping is order-sensitive: when `b` is close to `a` and to `c` but
      `a` is not close to `c`, a, b, c makes two groups and b, a, c one. */
  lemma {:induction false} GroupingIsOrderSensitive(a: Record, b: Record, c: Record)
    requires Close(a, b) && Close(b, c) && !Close(a, c)
    ensures Grouping([a, b, c]) == [[a, b], [c]]
    ensures Grouping([b, a, c]) == [[b, a, c]]
  {
    CloseSymmetric(a, b);
    CloseSymmetric(b, c);
    CloseSymmetric(a, c);
    GroupingOfClosePair(a, b);
    GroupingSnoc([a, b], c);
    assert [a, b] + [c] == [a, b, c];
    InsertOpensGroup([[a, b]], c);
    assert [[a, b]] + [[c]] == [[a, b], [c]];
    GroupingOfClosePair(b, a);
    GroupingSnoc([b, a], c);
    assert [b, a] + [c] == [b, a, c];
    InsertJoinsFirstCloseGroup([[b, a]], c, 0);
    assert [[b, a]][0 := [b, a, c]] == [[b, a, c]];
  }

  /** `filter_and_group_points`: the filter comprehension followed by the
      greedy grouping loop, with its `added` flag and `break`. */
  method FilterAndGroupPoints(allPoints: seq<Record>) returns (grouped: seq<seq<Record>>)
    ensures grouped == Grouping(ObservationFilter.Filter(allPoints))
  {
    var filtered := ObservationFilter.Filter(allPoints);
    grouped := [];
    for i := 0 to |filtered|
      invariant grouped == Grouping(filtered[..i])
    {
      var point := filtered[i];
      ghost var before := grouped;
      var added := false;
      var j := 0;
      while j < |grouped|
        invariant 0 <= j <= |grouped|
        invariant grouped == before && !added
        invariant forall k :: 0 <= k < j ==> !Close(point, grouped[k][0])
      {
        if Close(point, grouped[j][0]) {
          InsertJoinsFirstCloseGroup(grouped, point, j);
          grouped := grouped[j := grouped[j] + [point]];
          added := true;
          break;
        }
        j := j + 1;
      }
      if !added {
        InsertOpensGroup(grouped, point);
        grouped := grouped + [[point]];
      }
      assert filtered[..i + 1] == filtered[..i] + [point];
      GroupingSnoc(filtered[..i], point);
    }
    assert filtered[..|filtered|] == filtered;
  }
}
