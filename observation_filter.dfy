/** The admissibility filter of `filter_and_group_points`: a detection is kept
    when it is confident enough and its text is a numeral of at most two digits. */
module ObservationFilter {
  import opened Detection
  import opened Sequences

  /** Minimal confidence of an admissible detection. */
  const ScoreThreshold: real := 0.55
  /** Maximal length of an admissible text once dots are removed. */
  const MaxTextLength: nat := 2

  predicate IsDigitChar(c: char)
  {
    '0' <= c <= '9'
  }

  /** `str.isdigit()` over ASCII digits: false on the empty string. */
  predicate IsDigitString(s: string)
  {
    |s| > 0 && forall i :: 0 <= i < |s| ==> IsDigitChar(s[i])
  }

  /** `s.replace('.', '')`. */
  function RemoveDots(s: string): string
  {
    if |s| == 0 then []
    else RemoveDots(Init(s)) + (if Last(s) == '.' then [] else [Last(s)])
  }

  /** The dot removal drops exactly the dots: it leaves no dot, every other
      character as often as before, and a text without dots unchanged. */
  lemma {:induction false} RemoveDotsRemovesOnlyDots(s: string)
    ensures |RemoveDots(s)| == |s| - multiset(s)['.']
    ensures forall c :: c != '.' ==> multiset(RemoveDots(s))[c] == multiset(s)[c]
    ensures '.' !in RemoveDots(s)
    ensures '.' !in s ==> RemoveDots(s) == s
  {
    if |s| > 0 {
      RemoveDotsRemovesOnlyDots(Init(s));
      assert s == Init(s) + [Last(s)];
    }
  }

  /** The condition of the list comprehension, conjunct by conjunct. */
  predicate Admissible(p: Record)
  {
    p.score >= ScoreThreshold && |RemoveDots(p.text)| <= MaxTextLength && IsDigitString(p.text)
  }

  /** The list comprehension: the admissible records, in input order. */
  function Filter(ps: seq<Record>): seq<Record>
  {
    if |ps| == 0 then []
    else Filter(Init(ps)) + (if Admissible(Last(ps)) then [Last(ps)] else [])
  }

  /** Admissibility without the dot removal: a confident text of one or two digits. */
  lemma {:induction false} AdmissibleIff(p: Record)
    ensures Admissible(p) <==>
              p.score >= ScoreThreshold && 1 <= |p.text| <= MaxTextLength &&
              forall i :: 0 <= i < |p.text| ==> IsDigitChar(p.text[i])
  {
    RemoveDotsRemovesOnlyDots(p.text);
  }

  /** Because `isdigit` is applied to the text as it is, a text holding a dot
      or an empty text is never admissible: the dot removal changes no outcome. */
  lemma {:induction false} DottedOrEmptyTextRejected(p: Record)
    requires '.' in p.text || p.text == []
    ensures !Admissible(p)
  {
    if '.' in p.text {
      var i :| 0 <= i < |p.text| && p.text[i] == '.';
      assert !IsDigitChar(p.text[i]);
    }
  }

  /** The filter keeps every admissible record, as often as it occurs, and nothing else. */
  lemma {:induction false} FilterKeepsExactlyAdmissible(ps: seq<Record>)
    ensures forall p :: multiset(Filter(ps))[p] == if Admissible(p) then multiset(ps)[p] else 0
  {
    if |ps| > 0 {
      FilterKeepsExactlyAdmissible(Init(ps));
      assert ps == Init(ps) + [Last(ps)];
    }
  }

  /** The filter keeps the input order: its output is a subsequence of its input. */
  lemma {:induction false} FilterIsSubsequence(ps: seq<Record>)
    ensures IsSubseq(Filter(ps), ps)
  {
    if |ps| > 0 {
      FilterIsSubsequence(Init(ps));
      assert ps == Init(ps) + [Last(ps)];
      if Admissible(Last(ps)) {
        SubseqSnocBoth(Filter(Init(ps)), Init(ps), Last(ps));
      } else {
        assert Filter(ps) == Filter(Init(ps));
        SubseqSnocRight(Filter(Init(ps)), Init(ps), Last(ps));
      }
    }
  }

  /** Filtering the concatenated runs is concatenating the filtered runs. */
  lemma {:induction false} FilterConcat(a: seq<Record>, b: seq<Record>)
    ensures Filter(a + b) == Filter(a) + Filter(b)
  {
    if |b| == 0 {
      assert a + b == a;
    } else {
      var b0, x := Init(b), Last(b);
      assert b == b0 + [x];
      calc {
        Filter(a + b);
      == { assert a + b == (a + b0) + [x]; FilterSnocOne(a + b0, x); }
        Filter(a + b0) + Filter([x]);
      == { FilterConcat(a, b0); }
        Filter(a) + Filter(b0) + Filter([x]);
      == { FilterSnocOne(b0, x); }
        Filter(a) + Filter(b);
      }
    }
  }

  lemma {:induction false} FilterSnocOne(ps: seq<Record>, x: Record)
    ensures Filter(ps + [x]) == Filter(ps) + Filter([x])
  {
    InitOfSnoc(ps, x);
    assert Init([x]) == [];
  }

  /** Filtering twice is filtering once. */
  lemma {:induction false} FilterIdempotent(ps: seq<Record>)
    ensures Filter(Filter(ps)) == Filter(ps)
  {
    if |ps| > 0 {
      FilterIdempotent(Init(ps));
      var tail := if Admissible(Last(ps)) then [Last(ps)] else [];
      FilterConcat(Filter(Init(ps)), tail);
      if tail != [] {
        assert Filter(tail) == Filter([] + tail);
        InitOfSnoc([], Last(ps));
      }
    }
  }

  /** A run of admissible records passes the filter unchanged. */
  lemma {:induction false} FilterAllAdmissible(ps: seq<Record>)
    requires forall k :: 0 <= k < |ps| ==> Admissible(ps[k])
    ensures Filter(ps) == ps
  {
    if |ps| > 0 {
      var front := Init(ps);
      assert ps == front + [Last(ps)];
      assert forall k :: 0 <= k < |front| ==> front[k] == ps[k];
      FilterAllAdmissible(front);
    }
  }

  lemma {:induction false} FilterKeepsAdmissibleTriple(a: Record, b: Record, c: Record)
    requires Admissible(a) && Admissible(b) && Admissible(c)
    ensures Filter([a, b, c]) == [a, b, c]
  {
    FilterAllAdmissible([a, b, c]);
  }
}
