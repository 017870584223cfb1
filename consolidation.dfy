/** The consolidation of one image's detections: the admissibility filter,
    the greedy grouping and the per-group resolution applied in turn to all
    detections gathered over the enhancement parameter pairs. */
module Consolidation {
  import opened Detection
  import opened Sequences
  import opened ObservationFilter
  import opened Clusterer
  import opened Resolver

  /** `purify_data(filter_and_group_points(all_points))`. */
  function Consolidate(allPoints: seq<Record>): seq<Record>
  {
    Purified(Grouping(Filter(allPoints)))
  }

  /** The two calls made for each image, one after the other. */
  method ConsolidatePoints(allPoints: seq<Record>) returns (purified: seq<Record>)
    ensures purified == Consolidate(allPoints)
  {
    var grouped := FilterAndGroupPoints(allPoints);
    purified := PurifyData(grouped);
  }

  /** One consolidated record per group of admissible detections, hence never
      more than there are admissible detections. */
  lemma {:induction false} ConsolidatedOnePerGroup(allPoints: seq<Record>)
    ensures |Consolidate(allPoints)| == |Grouping(Filter(allPoints))| <= |Filter(allPoints)|
    ensures forall j :: 0 <= j < |Grouping(Filter(allPoints))| ==>
              Consolidate(allPoints)[j] == Resolve(Grouping(Filter(allPoints))[j])
  {
    GroupingIsPartition(Filter(allPoints));
    PurifiedOnePerGroup(Grouping(Filter(allPoints)));
  }

  /** Every consolidated record takes its text, score, alpha and beta from one
      admissible input detection, so it is itself admissible. */
  lemma {:induction false} ConsolidatedFromAdmissible(allPoints: seq<Record>)
    ensures forall r :: r in Consolidate(allPoints) ==>
              Admissible(r) &&
              exists q :: q in allPoints && Admissible(q) &&
                q.text == r.text && q.score == r.score && q.alpha == r.alpha && q.beta == r.beta
  {
    var filtered := Filter(allPoints);
    var groups := Grouping(filtered);
    ConsolidatedOnePerGroup(allPoints);
    GroupingIsPartition(filtered);
    FilterKeepsExactlyAdmissible(allPoints);
    forall r | r in Consolidate(allPoints)
      ensures Admissible(r)
      ensures exists q :: q in allPoints && Admissible(q) &&
                q.text == r.text && q.score == r.score && q.alpha == r.alpha && q.beta == r.beta
    {
      var j :| 0 <= j < |groups| && Consolidate(allPoints)[j] == r;
      var g := groups[j];
      ResolveTakesRepresentative(g);
      var k :| FirstMinimal(g, Resolve(g).text, k) &&
               Resolve(g).score == g[k].score && Resolve(g).alpha == g[k].alpha && Resolve(g).beta == g[k].beta;
      SubseqMember(g, filtered, g[k]);
      assert multiset(filtered)[g[k]] > 0;
      assert Admissible(g[k]) && g[k] in allPoints;
    }
  }

  /** A detection that fails the filter changes nothing, wherever it appears. */
  lemma {:induction false} InadmissibleIgnored(a: seq<Record>, x: Record, b: seq<Record>)
    requires !Admissible(x)
    ensures Consolidate(a + [x] + b) == Consolidate(a + b)
  {
    assert Filter(a + [x] + b) == Filter(a + b) by {
      FilterConcat(a + [x], b);
      FilterConcat(a, [x]);
      FilterConcat(a, b);
      assert Filter([x]) == [] by {
        assert Init([x]) == [];
      }
    }
  }

  /** One reading seen by every scan, so that the detections differ only in
      the alpha and beta they are tagged with, consolidates to a single record
      with that reading's text, score and corners, and the alpha and beta of
      the first detection of minimal alpha. */
  lemma {:induction false} AgreeingDetectionsConsolidate(allPoints: seq<Record>, p: Record)
    requires Admissible(p)
    requires |allPoints| > 0
    requires forall k :: 0 <= k < |allPoints| ==>
               allPoints[k] == p.(alpha := allPoints[k].alpha, beta := allPoints[k].beta)
    ensures |Consolidate(allPoints)| == 1
    ensures var r := Consolidate(allPoints)[0];
            && r.text == p.text && r.score == p.score
            && r.topLeft == p.topLeft && r.bottomRight == p.bottomRight
            && exists k :: FirstMinimal(allPoints, p.text, k) &&
                 r.alpha == allPoints[k].alpha && r.beta == allPoints[k].beta
  {
    assert Filter(allPoints) == allPoints by {
      assert forall k :: 0 <= k < |allPoints| ==> Admissible(allPoints[k]);
      FilterAllAdmissible(allPoints);
    }
    assert Grouping(allPoints) == [allPoints] by {
      assert forall k :: 0 <= k < |allPoints| ==> Close(allPoints[k], allPoints[0]);
      GroupingAllCloseToFirst(allPoints);
    }
    assert Purified([allPoints]) == [Resolve(allPoints)] by {
      InitOfSnoc([], allPoints);
      assert [] + [allPoints] == [allPoints];
    }
    ResolveAgreeing(allPoints, p);
  }

  /** The outcome depends on the order of the detections: with `b` close to
      both `a` and `c`, but `a` not close to `c`, the order a, b, c gives two
      records where b, a, c gives one. */
  lemma {:induction false} ConsolidationIsOrderSensitive(a: Record, b: Record, c: Record)
    requires Admissible(a) && Admissible(b) && Admissible(c)
    requires Close(a, b) && Close(b, c) && !Close(a, c)
    ensures |Consolidate([a, b, c])| == 2 && |Consolidate([b, a, c])| == 1
  {
    GroupingIsOrderSensitive(a, b, c);
    FilterKeepsAdmissibleTriple(a, b, c);
    FilterKeepsAdmissibleTriple(b, a, c);
    ConsolidatedOnePerGroup([a, b, c]);
    ConsolidatedOnePerGroup([b, a, c]);
  }
}
