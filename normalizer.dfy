/** The normaliser, `process_detected_points`: one recogniser result becomes
    a list of records in original-image coordinates, tagged with the
    enhancement parameters that produced it. */
module Normalizer {
  import opened Detection
  import opened Sequences

  datatype Option<T> = None | Some(value: T)

  /** A corner of the recogniser's quadrilateral, in enhanced-image pixels. */
  datatype Corner = Corner(x: real, y: real)

  /** The four corners `box[0..3]`; only corners 0 and 2 are used. */
  datatype Quad = Quad(c0: Corner, c1: Corner, c2: Corner, c3: Corner)

  /** One detection `[box, (text, score)]`. */
  datatype Line = Line(box: Quad, text: string, score: real)

  /** One page of a result: `None` when the recogniser found nothing there,
      otherwise its entries, where `None` stands for a falsy entry. */
  type Page = Option<seq<Option<Line>>>

  /** The recogniser's result: `None`, or its list of pages. */
  type RecognizerResult = Option<seq<Page>>

  /** The exceptions the loop can raise: iterating over a `None` page, and
      dividing by a zero scale. */
  datatype Error = NotIterable | ZeroDivision

  datatype Outcome = Ok(points: seq<Record>) | Fail(error: Error)

  /** Python's `int()` of a float: truncation toward zero. */
  function Trunc(v: real): (n: int)
    ensures v >= 0.0 ==> 0 <= n && n as real <= v < n as real + 1.0
    ensures v < 0.0 ==> n <= 0 && n as real - 1.0 < v <= n as real
  {
    if v >= 0.0 then v.Floor else -((-v).Floor)
  }

  /** `[int(c[0] / scale), int(c[1] / scale)]`. */
  function ScaleDown(c: Corner, scale: real): Point
    requires scale != 0.0
  {
    Point(Trunc(c.x / scale), Trunc(c.y / scale))
  }

  /** The record appended for one truthy entry. */
  function ToRecord(line: Line, scale: real, alpha: real, beta: real): Record
    requires scale != 0.0
  {
    Record(line.text, line.score, ScaleDown(line.box.c0, scale), ScaleDown(line.box.c2, scale), alpha, beta)
  }

  /** The truthy entries of a page, in order. */
  function TruthyLines(lines: seq<Option<Line>>): (live: seq<Line>)
    ensures |live| <= |lines|
  {
    if |lines| == 0 then []
    else TruthyLines(Init(lines)) + (if Last(lines).Some? then [Last(lines).value] else [])
  }

  /** The records of the truthy entries, in order. A zero scale is allowed
      only when there is nothing to divide. */
  function Records(live: seq<Line>, scale: real, alpha: real, beta: real): (r: seq<Record>)
    requires scale != 0.0 || |live| == 0
    ensures |r| == |live|
  {
    if |live| == 0 then []
    else Records(Init(live), scale, alpha, beta) + [ToRecord(Last(live), scale, alpha, beta)]
  }

  /** The guard `result and result != [None] and len(result) > 0`. */
  predicate Proceeds(result: RecognizerResult)
  {
    result.Some? && |result.value| > 0 && !(|result.value| == 1 && result.value[0].None?)
  }

  /** What `process_detected_points` returns or raises. */
  function Detected(result: RecognizerResult, scale: real, alpha: real, beta: real): Outcome
  {
    if !Proceeds(result) then Ok([])
    else
      match result.value[0]
      case None => Fail(NotIterable)
      case Some(lines) =>
        var live := TruthyLines(lines);
        if scale == 0.0 && |live| > 0 then Fail(ZeroDivision)
        else Ok(Records(live, scale, alpha, beta))
  }

  /** `process_detected_points`: the loop over the first page that skips falsy
      entries and appends one record per truthy entry. */
  method ProcessDetectedPoints(result: RecognizerResult, scale: real, alpha: real, beta: real)
    returns (outcome: Outcome)
    ensures outcome == Detected(result, scale, alpha, beta)
  {
    var detected: seq<Record> := [];
    if result.Some? && |result.value| > 0 && !(|result.value| == 1 && result.value[0].None?) {
      var page := result.value[0];
      if page.None? {
        return Fail(NotIterable);
      }
      var lines := page.value;
      for i := 0 to |lines|
        invariant scale == 0.0 ==> |TruthyLines(lines[..i])| == 0
        invariant detected == Records(TruthyLines(lines[..i]), scale, alpha, beta)
      {
        var line := lines[i];
        assert lines[..i + 1] == lines[..i] + [line];
        TruthyLinesSnoc(lines[..i], line);
        if line.Some? {
          if scale == 0.0 {
            TruthyLinesConcat(lines[..i + 1], lines[i + 1..]);
            assert lines[..i + 1] + lines[i + 1..] == lines;
            return Fail(ZeroDivision);
          }
          var box := line.value.box;
          var topLeft := Point(Trunc(box.c0.x / scale), Trunc(box.c0.y / scale));
          var bottomRight := Point(Trunc(box.c2.x / scale), Trunc(box.c2.y / scale));
          var record := Record(line.value.text, line.value.score, topLeft, bottomRight, alpha, beta);
          assert record == ToRecord(line.value, scale, alpha, beta);
          RecordsSnoc(TruthyLines(lines[..i]), line.value, scale, alpha, beta);
          detected := detected + [record];
        } else {
          assert TruthyLines(lines[..i + 1]) == TruthyLines(lines[..i]);
        }
      }
      assert lines[..|lines|] == lines;
    }
    return Ok(detected);
  }

  // ---------------------------------------------------------------------
  // Properties

  /** `int()` is odd: it truncates toward zero, not toward negative infinity. */
  lemma {:induction false} TruncIsOdd(v: real)
    ensures Trunc(-v) == -Trunc(v)
  {
  }

  /** `int(-2.5)` is -2, where flooring would give -3. */
  lemma {:induction false} TruncTowardZeroExample()
    ensures Trunc(-2.5) == -2 && Trunc(2.5) == 2
  {
    assert (2.5).Floor == 2;
  }

  lemma {:induction false} TruthyLinesSnoc(lines: seq<Option<Line>>, x: Option<Line>)
    ensures TruthyLines(lines + [x]) == TruthyLines(lines) + (if x.Some? then [x.value] else [])
  {
    InitOfSnoc(lines, x);
  }

  lemma {:induction false} RecordsSnoc(live: seq<Line>, l: Line, scale: real, alpha: real, beta: real)
    requires scale != 0.0
    ensures Records(live + [l], scale, alpha, beta) == Records(live, scale, alpha, beta) + [ToRecord(l, scale, alpha, beta)]
  {
    InitOfSnoc(live, l);
  }

  /** Truthy entries of concatenated pages are concatenated. */
  lemma {:induction false} TruthyLinesConcat(a: seq<Option<Line>>, b: seq<Option<Line>>)
    ensures TruthyLines(a + b) == TruthyLines(a) + TruthyLines(b)
  {
    if |b| == 0 {
      assert a + b == a;
    } else {
      var b0, x := Init(b), Last(b);
      calc {
        TruthyLines(a + b);
      == { assert a + b == (a + b0) + [x]; InitOfSnoc(a + b0, x); }
        TruthyLines(a + b0) + (if x.Some? then [x.value] else []);
      == { TruthyLinesConcat(a, b0); }
        TruthyLines(a) + TruthyLines(b0) + (if x.Some? then [x.value] else []);
      }
    }
  }

  /** The truthy entries are exactly the `Some` entries of the page, each as
      often as it occurs there. */
  lemma {:induction false} TruthyLinesKeepsExactly(lines: seq<Option<Line>>)
    ensures forall l :: multiset(TruthyLines(lines))[l] == multiset(lines)[Some(l)]
  {
    if |lines| > 0 {
      var l0, x := Init(lines), Last(lines);
      TruthyLinesKeepsExactly(l0);
      assert lines == l0 + [x];
      assert multiset(lines) == multiset(l0) + multiset{x};
    }
  }

  /** The records follow the truthy entries one for one: same text and score,
      the given tags, and corners 0 and 2 scaled down and truncated. */
  lemma {:induction false} RecordsPointwise(live: seq<Line>, scale: real, alpha: real, beta: real)
    requires scale != 0.0
    ensures forall i :: 0 <= i < |live| ==>
              && Records(live, scale, alpha, beta)[i].text == live[i].text
              && Records(live, scale, alpha, beta)[i].score == live[i].score
              && Records(live, scale, alpha, beta)[i].alpha == alpha
              && Records(live, scale, alpha, beta)[i].beta == beta
              && Records(live, scale, alpha, beta)[i].topLeft == ScaleDown(live[i].box.c0, scale)
              && Records(live, scale, alpha, beta)[i].bottomRight == ScaleDown(live[i].box.c2, scale)
  {
    if |live| > 0 {
      var l0 := Init(live);
      RecordsPointwise(l0, scale, alpha, beta);
      assert live == l0 + [Last(live)];
      var r := Records(live, scale, alpha, beta);
      assert r == Records(l0, scale, alpha, beta) + [ToRecord(Last(live), scale, alpha, beta)];
      forall i | 0 <= i < |l0|
        ensures r[i] == Records(l0, scale, alpha, beta)[i] && live[i] == l0[i]
      {
      }
    }
  }

  /** No recogniser output, an empty list, or `[None]` gives no records. */
  lemma {:induction false} NothingDetected(scale: real, alpha: real, beta: real)
    ensures Detected(None, scale, alpha, beta) == Ok([])
    ensures Detected(Some([]), scale, alpha, beta) == Ok([])
    ensures Detected(Some([None]), scale, alpha, beta) == Ok([])
  {
  }

  /** A `None` first page followed by more pages raises instead of giving `[]`. */
  lemma {:induction false} NonePageWithMorePagesFails(rest: seq<Page>, scale: real, alpha: real, beta: real)
    requires |rest| > 0
    ensures Detected(Some([None] + rest), scale, alpha, beta) == Fail(NotIterable)
  {
  }

  /** A page has no truthy entry exactly when all its entries are falsy. */
  lemma {:induction false} TruthyLinesEmptyIff(lines: seq<Option<Line>>)
    ensures |TruthyLines(lines)| == 0 <==> forall k :: 0 <= k < |lines| ==> lines[k].None?
  {
    if |lines| > 0 {
      var l0 := Init(lines);
      TruthyLinesEmptyIff(l0);
      assert lines == l0 + [Last(lines)];
      assert forall k :: 0 <= k < |l0| ==> lines[k] == l0[k];
    }
  }

  /** A zero scale fails exactly when there is a truthy entry to divide. */
  lemma {:induction false} ZeroScaleFailsIffTruthy(lines: seq<Option<Line>>, rest: seq<Page>, alpha: real, beta: real)
    ensures Detected(Some([Some(lines)] + rest), 0.0, alpha, beta) == Fail(ZeroDivision)
            <==> exists k :: 0 <= k < |lines| && lines[k].Some?
  {
    TruthyLinesEmptyIff(lines);
    assert ([Some(lines)] + rest)[0] == Some(lines);
  }

  /** With a non-zero scale the records are the first page's truthy entries,
      one each, in order, and only the first page is read. */
  lemma {:induction false} DetectedFollowsFirstPage(lines: seq<Option<Line>>, rest: seq<Page>, scale: real, alpha: real, beta: real)
    requires scale != 0.0
    ensures Detected(Some([Some(lines)] + rest), scale, alpha, beta) == Ok(Records(TruthyLines(lines), scale, alpha, beta))
    ensures |Records(TruthyLines(lines), scale, alpha, beta)| == |TruthyLines(lines)|
  {
    assert ([Some(lines)] + rest)[0] == Some(lines);
  }

  /** Corners 1 and 3 of the quadrilateral do not influence the record. */
  lemma {:induction false} OtherCornersIgnored(line: Line, c1: Corner, c3: Corner, scale: real, alpha: real, beta: real)
    requires scale != 0.0
    ensures ToRecord(line.(box := line.box.(c1 := c1, c3 := c3)), scale, alpha, beta) == ToRecord(line, scale, alpha, beta)
  {
  }

  /** A box found at twice the original resolution maps back to it. */
  lemma {:induction false} ScaleDownExample()
    ensures ScaleDown(Corner(20.0, 31.0), 2.0) == Point(10, 15)
  {
    assert (15.5).Floor == 15;
  }
}
