/** The cluster resolver, `purify_data`: each non-empty group becomes one
    record whose text is the group's stable majority text, whose score and
    parameters come from the first member of that text with minimal alpha,
    and whose corners are the floor means of the members' corners. */
module Resolver {
  import opened Detection
  import opened Sequences

  /** Number of members of `g` whose text is `t`. */
  function CountText(g: seq<Record>, t: string): nat
  {
    if |g| == 0 then 0 else CountText(Init(g), t) + (if Last(g).text == t then 1 else 0)
  }

  /** Index of the first member of `g` whose text is `t`, or `|g|` when there is none. */
  function FirstIndex(g: seq<Record>, t: string): (i: nat)
    ensures i <= |g|
    ensures i < |g| ==> g[i].text == t
  {
    if |g| == 0 then 0 else if g[0].text == t then 0 else 1 + FirstIndex(g[1..], t)
  }

  /** A text counter: (text, count) entries in insertion order, as a
      `collections.Counter` keeps its keys. */
  type Tally = seq<(string, nat)>

  /** Position of the entry for `t`, or `|tally|` when `t` is not a key. */
  function KeyIndex(tally: Tally, t: string): (i: nat)
    ensures i <= |tally|
    ensures i < |tally| ==> tally[i].0 == t
  {
    if |tally| == 0 then 0 else if tally[0].0 == t then 0 else 1 + KeyIndex(tally[1..], t)
  }

  /** Counting one more `t`: a known key is incremented where it stands, a
      new key is appended with count 1. */
  function Bump(tally: Tally, t: string): (r: Tally)
    ensures |tally| <= |r| <= |tally| + 1
  {
    var a := KeyIndex(tally, t);
    if a < |tally| then tally[a := (t, tally[a].1 + 1)] else tally + [(t, 1)]
  }

  /** `Counter(point['text'] for point in group)`. */
  function CountTexts(g: seq<Record>): (r: Tally)
    ensures |r| <= |g|
    ensures |g| > 0 ==> |r| > 0
  {
    if |g| == 0 then [] else Bump(CountTexts(Init(g)), Last(g).text)
  }

  /** `tally` is the counter of the texts of `g`: its keys are the texts of
      `g` in order of first occurrence, each with its number of occurrences. */
  ghost predicate IsTallyOf(tally: Tally, g: seq<Record>)
  {
    KeysInFirstOccurrenceOrder(tally, g) && KeysCounted(tally, g) && KeysCover(tally, g)
  }

  ghost predicate KeysInFirstOccurrenceOrder(tally: Tally, g: seq<Record>)
  {
    forall a, b :: 0 <= a < b < |tally| ==> FirstIndex(g, tally[a].0) < FirstIndex(g, tally[b].0)
  }

  /** Every key occurs in `g`, and its count is its number of occurrences. */
  ghost predicate KeysCounted(tally: Tally, g: seq<Record>)
  {
    forall a :: 0 <= a < |tally| ==> FirstIndex(g, tally[a].0) < |g| && tally[a].1 == CountText(g, tally[a].0)
  }

  /** Every text of `g` is a key. */
  ghost predicate KeysCover(tally: Tally, g: seq<Record>)
  {
    forall k :: 0 <= k < |g| ==> KeyIndex(tally, g[k].text) < |tally|
  }

  /** `counter.most_common(1)[0]`, which is `max(counter.items(), key=count)`:
      the position of the first entry of maximal count. */
  function MostCommonIndex(tally: Tally): (m: nat)
    requires |tally| > 0
    ensures m < |tally|
  {
    if |tally| == 1 then 0
    else
      var b := MostCommonIndex(Init(tally));
      if Last(tally).1 > tally[b].1 then |tally| - 1 else b
  }

  /** `most_common_text`. */
  function MajorityText(g: seq<Record>): string
    requires |g| > 0
  {
    var tally := CountTexts(g);
    tally[MostCommonIndex(tally)].0
  }

  /** `[p for p in group if p['text'] == t]`. */
  function WithText(g: seq<Record>, t: string): (r: seq<Record>)
    ensures |r| <= |g|
  {
    if |g| == 0 then []
    else WithText(Init(g), t) + (if Last(g).text == t then [Last(g)] else [])
  }

  /** `min(s, key=lambda x: x['alpha'])`: Python keeps the earliest minimum. */
  function MinByAlpha(s: seq<Record>): (r: Record)
    requires |s| > 0
  {
    if |s| == 1 then s[0]
    else
      var b := MinByAlpha(Init(s));
      if Last(s).alpha < b.alpha then Last(s) else b
  }

  function Sum(xs: seq<int>): int
  {
    if |xs| == 0 then 0 else Sum(Init(xs)) + Last(xs)
  }

  /** Python's `s // n` for a positive `n`: the quotient rounded toward
      negative infinity, computed by repeated subtraction or addition. */
  function FloorDiv(s: int, n: int): int
    requires n > 0
    decreases if s < 0 then n - s else s
  {
    if s < 0 then FloorDiv(s + n, n) - 1
    else if s < n then 0
    else FloorDiv(s - n, n) + 1
  }

  /** `sum(coord) // len(coord)`. */
  function FloorMean(xs: seq<int>): int
    requires |xs| > 0
  {
    FloorDiv(Sum(xs), |xs|)
  }

  /** The four corner coordinates that are averaged separately. */
  datatype Axis = TopLeftX | TopLeftY | BottomRightX | BottomRightY

  function Coordinate(p: Record, axis: Axis): int
  {
    match axis
    case TopLeftX => p.topLeft.x
    case TopLeftY => p.topLeft.y
    case BottomRightX => p.bottomRight.x
    case BottomRightY => p.bottomRight.y
  }

  /** One component of `zip(*top_lefts)` or `zip(*bottom_rights)`. */
  function Column(g: seq<Record>, axis: Axis): (xs: seq<int>)
    ensures |xs| == |g|
  {
    seq(|g|, i requires 0 <= i < |g| => Coordinate(g[i], axis))
  }

  /** `best_point`: the first member with the majority text of minimal alpha. */
  function Representative(g: seq<Record>): Record
    requires |g| > 0
  {
    MajorityIsStable(g);
    WithTextContains(g, MajorityText(g), FirstIndex(g, MajorityText(g)));
    MinByAlpha(WithText(g, MajorityText(g)))
  }

  /** `avg_top_left` and `avg_bottom_right`, one coordinate at a time. */
  function MeanCoordinate(g: seq<Record>, axis: Axis): int
    requires |g| > 0
  {
    FloorMean(Column(g, axis))
  }

  /** The resolved record of one non-empty group (`purified_point`). */
  function Resolve(g: seq<Record>): Record
    requires |g| > 0
  {
    var best := Representative(g);
    Record(
      MajorityText(g),
      best.score,
      Point(MeanCoordinate(g, TopLeftX), MeanCoordinate(g, TopLeftY)),
      Point(MeanCoordinate(g, BottomRightX), MeanCoordinate(g, BottomRightY)),
      best.alpha,
      best.beta)
  }

  /** The output of `purify_data`: one resolved record per non-empty group, in group order. */
  function Purified(groups: seq<seq<Record>>): seq<Record>
  {
    if |groups| == 0 then []
    else Purified(Init(groups)) + PurifiedOne(Last(groups))
  }

  /** `purify_data`: the loop that skips empty groups and appends one resolved record per group. */
  method PurifyData(grouped: seq<seq<Record>>) returns (purified: seq<Record>)
    ensures purified == Purified(grouped)
  {
    purified := [];
    for i := 0 to |grouped|
      invariant purified == Purified(grouped[..i])
    {
      var group := grouped[i];
      assert grouped[..i + 1] == grouped[..i] + [group];
      PurifiedSnoc(grouped[..i], group);
      if |group| == 0 {
        continue;
      }
      purified := purified + [Resolve(group)];
    }
    assert grouped[..|grouped|] == grouped;
  }

  // ---------------------------------------------------------------------
  // The counter

  lemma {:induction false} CountTextSnoc(g: seq<Record>, x: Record, t: string)
    ensures CountText(g + [x], t) == CountText(g, t) + (if x.text == t then 1 else 0)
  {
    InitOfSnoc(g, x);
  }

  lemma {:induction false} CountTextAbsent(g: seq<Record>, t: string)
    requires forall k :: 0 <= k < |g| ==> g[k].text != t
    ensures CountText(g, t) == 0
  {
    if |g| > 0 {
      CountTextAbsent(Init(g), t);
    }
  }

  /** No occurrence of `t` comes before its first occurrence. */
  lemma {:induction false} FirstIndexIsFirst(g: seq<Record>, t: string, k: int)
    requires 0 <= k < |g| && g[k].text == t
    ensures FirstIndex(g, t) <= k
  {
    if g[0].text != t {
      assert g[1..][k - 1] == g[k];
      FirstIndexIsFirst(g[1..], t, k - 1);
    }
  }

  lemma {:induction false} FirstIndexSnoc(g: seq<Record>, x: Record, t: string)
    ensures FirstIndex(g + [x], t) ==
              if FirstIndex(g, t) < |g| then FirstIndex(g, t) else if x.text == t then |g| else |g| + 1
  {
    if |g| == 0 {
      assert g + [x] == [x];
      assert [x][1..] == [];
    } else {
      assert (g + [x])[0] == g[0];
      assert (g + [x])[1..] == g[1..] + [x];
      if g[0].text != t {
        FirstIndexSnoc(g[1..], x, t);
      }
    }
  }

  /** No entry before the one found has key `t`. */
  lemma {:induction false} KeyIndexNoneBefore(tally: Tally, t: string, a: int)
    requires 0 <= a < KeyIndex(tally, t)
    ensures tally[a].0 != t
  {
    if a > 0 {
      assert tally[1..][a - 1] == tally[a];
      KeyIndexNoneBefore(tally[1..], t, a - 1);
    }
  }

  lemma {:induction false} KeyIndexSameKeys(t1: Tally, t2: Tally, u: string)
    requires |t1| == |t2| && forall a :: 0 <= a < |t1| ==> t1[a].0 == t2[a].0
    ensures KeyIndex(t1, u) == KeyIndex(t2, u)
  {
    if |t1| > 0 && t1[0].0 != u {
      assert forall a :: 0 <= a < |t1| - 1 ==> t1[1..][a] == t1[a + 1] && t2[1..][a] == t2[a + 1];
      KeyIndexSameKeys(t1[1..], t2[1..], u);
    }
  }

  lemma {:induction false} KeyIndexSnoc(tally: Tally, e: (string, nat), u: string)
    ensures KeyIndex(tally + [e], u) ==
              if KeyIndex(tally, u) < |tally| then KeyIndex(tally, u) else if e.0 == u then |tally| else |tally| + 1
  {
    if |tally| == 0 {
      assert tally + [e] == [e];
      assert [e][1..] == [];
    } else {
      assert (tally + [e])[0] == tally[0];
      assert (tally + [e])[1..] == tally[1..] + [e];
      if tally[0].0 != u {
        KeyIndexSnoc(tally[1..], e, u);
      }
    }
  }

  /** Appending a member leaves the first occurrence of every known key in
      place and adds one to the count of the member's own text. */
  lemma {:induction false} TallyEntriesSnoc(tally: Tally, g: seq<Record>, x: Record)
    requires forall b :: 0 <= b < |tally| ==> FirstIndex(g, tally[b].0) < |g|
    ensures forall b :: 0 <= b < |tally| ==> FirstIndex(g + [x], tally[b].0) == FirstIndex(g, tally[b].0)
    ensures forall b :: 0 <= b < |tally| ==>
              CountText(g + [x], tally[b].0) == CountText(g, tally[b].0) + (if tally[b].0 == x.text then 1 else 0)
  {
    forall b | 0 <= b < |tally|
      ensures FirstIndex(g + [x], tally[b].0) == FirstIndex(g, tally[b].0)
      ensures CountText(g + [x], tally[b].0) == CountText(g, tally[b].0) + (if tally[b].0 == x.text then 1 else 0)
    {
      FirstIndexSnoc(g, x, tally[b].0);
      CountTextSnoc(g, x, tally[b].0);
    }
  }

  lemma {:induction false} BumpKnownKeepsTally(tally: Tally, g: seq<Record>, x: Record)
    requires IsTallyOf(tally, g)
    requires KeyIndex(tally, x.text) < |tally|
    ensures IsTallyOf(Bump(tally, x.text), g + [x])
  {
    var a := KeyIndex(tally, x.text);
    assert Bump(tally, x.text) == tally[a := (x.text, tally[a].1 + 1)];
    KnownEntryCounts(tally, g, x);
    KnownEntryKeys(tally, g, x);
  }

  lemma {:induction false} KnownEntryCounts(tally: Tally, g: seq<Record>, x: Record)
    requires KeysInFirstOccurrenceOrder(tally, g) && KeysCounted(tally, g)
    requires KeyIndex(tally, x.text) < |tally|
    ensures var a := KeyIndex(tally, x.text);
            var r := tally[a := (x.text, tally[a].1 + 1)];
            KeysInFirstOccurrenceOrder(r, g + [x]) && KeysCounted(r, g + [x])
  {
    var a := KeyIndex(tally, x.text);
    var r := tally[a := (x.text, tally[a].1 + 1)];
    TallyEntriesSnoc(tally, g, x);
    forall b | 0 <= b < |r|
      ensures FirstIndex(g + [x], r[b].0) == FirstIndex(g, tally[b].0)
      ensures r[b].1 == CountText(g + [x], r[b].0)
    {
      if b != a {
        assert tally[b].0 != x.text by {
          if b < a {
            assert FirstIndex(g, tally[b].0) < FirstIndex(g, tally[a].0);
          } else {
            assert FirstIndex(g, tally[a].0) < FirstIndex(g, tally[b].0);
          }
        }
      }
    }
  }

  lemma {:induction false} KnownEntryKeys(tally: Tally, g: seq<Record>, x: Record)
    requires KeysCover(tally, g)
    requires KeyIndex(tally, x.text) < |tally|
    ensures var a := KeyIndex(tally, x.text);
            var r := tally[a := (x.text, tally[a].1 + 1)];
            KeysCover(r, g + [x])
  {
    var a := KeyIndex(tally, x.text);
    var r := tally[a := (x.text, tally[a].1 + 1)];
    forall k | 0 <= k < |g + [x]|
      ensures KeyIndex(r, (g + [x])[k].text) < |r|
    {
      KeyIndexSameKeys(r, tally, (g + [x])[k].text);
      if k < |g| {
        assert (g + [x])[k] == g[k];
      }
    }
  }

  /** A text that is no key of the tally of `g` occurs nowhere in `g`. */
  lemma {:induction false} NewKeyAbsent(tally: Tally, g: seq<Record>, t: string)
    requires forall k :: 0 <= k < |g| ==> KeyIndex(tally, g[k].text) < |tally|
    requires KeyIndex(tally, t) == |tally|
    ensures forall k :: 0 <= k < |g| ==> g[k].text != t
    ensures FirstIndex(g, t) == |g| && CountText(g, t) == 0
  {
    CountTextAbsent(g, t);
  }

  lemma {:induction false} BumpNewKeepsTally(tally: Tally, g: seq<Record>, x: Record)
    requires IsTallyOf(tally, g)
    requires KeyIndex(tally, x.text) == |tally|
    ensures IsTallyOf(Bump(tally, x.text), g + [x])
  {
    assert Bump(tally, x.text) == tally + [(x.text, 1)];
    NewEntryCounts(tally, g, x);
    NewEntryKeys(tally, g, x);
  }

  lemma {:induction false} NewEntryCounts(tally: Tally, g: seq<Record>, x: Record)
    requires IsTallyOf(tally, g)
    requires KeyIndex(tally, x.text) == |tally|
    ensures KeysInFirstOccurrenceOrder(tally + [(x.text, 1)], g + [x]) && KeysCounted(tally + [(x.text, 1)], g + [x])
  {
    var r := tally + [(x.text, 1)];
    NewKeyAbsent(tally, g, x.text);
    CountTextSnoc(g, x, x.text);
    FirstIndexSnoc(g, x, x.text);
    TallyEntriesSnoc(tally, g, x);
    forall b | 0 <= b < |r|
      ensures FirstIndex(g + [x], r[b].0) == (if b < |tally| then FirstIndex(g, tally[b].0) else |g|)
      ensures r[b].1 == CountText(g + [x], r[b].0)
    {
      if b < |tally| {
        KeyIndexNoneBefore(tally, x.text, b);
        assert r[b] == tally[b];
      } else {
        assert r[b] == (x.text, 1);
      }
    }
  }

  lemma {:induction false} NewEntryKeys(tally: Tally, g: seq<Record>, x: Record)
    requires KeysCover(tally, g)
    ensures KeysCover(tally + [(x.text, 1)], g + [x])
  {
    forall k | 0 <= k < |g + [x]|
      ensures KeyIndex(tally + [(x.text, 1)], (g + [x])[k].text) < |tally| + 1
    {
      if k < |g| {
        assert (g + [x])[k] == g[k];
        KeyIndexSnoc(tally, (x.text, 1), g[k].text);
      } else {
        KeyIndexSnoc(tally, (x.text, 1), x.text);
      }
    }
  }

  /** The counter built from a group's texts is that group's tally. */
  lemma {:induction false} CountTextsIsTally(g: seq<Record>)
    ensures IsTallyOf(CountTexts(g), g)
  {
    if |g| > 0 {
      CountTextsIsTally(Init(g));
      assert g == Init(g) + [Last(g)];
      if KeyIndex(CountTexts(Init(g)), Last(g).text) < |CountTexts(Init(g))| {
        BumpKnownKeepsTally(CountTexts(Init(g)), Init(g), Last(g));
      } else {
        BumpNewKeepsTally(CountTexts(Init(g)), Init(g), Last(g));
      }
    }
  }

  /** The majority text is stable: it occurs in the group, no text occurs more
      often, and every member before its first occurrence has a text that
      occurs strictly less often. It is the text of the first member whose
      text has maximal count. */
  lemma {:induction false} MajorityIsStable(g: seq<Record>)
    requires |g| > 0
    ensures FirstIndex(g, MajorityText(g)) < |g|
    ensures forall k :: 0 <= k < |g| ==> CountText(g, g[k].text) <= CountText(g, MajorityText(g))
    ensures forall k :: 0 <= k < FirstIndex(g, MajorityText(g)) ==>
              CountText(g, g[k].text) < CountText(g, MajorityText(g))
  {
    var tally := CountTexts(g);
    CountTextsIsTally(g);
    var m := MostCommonIndex(tally);
    MostCommonIndexIsFirstMaximal(tally);
    var t := tally[m].0;
    forall k | 0 <= k < |g|
      ensures CountText(g, g[k].text) <= CountText(g, t)
      ensures k < FirstIndex(g, t) ==> CountText(g, g[k].text) < CountText(g, t)
    {
      FirstMaximalKeyBeats(tally, g, m, k);
    }
  }

  /** The key of a first maximal entry occurs at least as often as any text,
      and strictly more often than the text of any member before its first
      occurrence. */
  lemma {:induction false} FirstMaximalKeyBeats(tally: Tally, g: seq<Record>, m: nat, k: nat)
    requires IsTallyOf(tally, g) && m < |tally| && k < |g|
    requires forall a :: 0 <= a < |tally| ==> tally[a].1 <= tally[m].1
    requires forall a :: 0 <= a < m ==> tally[a].1 < tally[m].1
    ensures CountText(g, g[k].text) <= CountText(g, tally[m].0)
    ensures k < FirstIndex(g, tally[m].0) ==> CountText(g, g[k].text) < CountText(g, tally[m].0)
  {
    var a := KeyIndex(tally, g[k].text);
    FirstIndexIsFirst(g, g[k].text, k);
    if k < FirstIndex(g, tally[m].0) {
      assert a < m;
    }
  }

  /** The entry found has maximal count, and every earlier entry a strictly
      smaller one: ties go to the entry counted first. */
  lemma {:induction false} MostCommonIndexIsFirstMaximal(tally: Tally)
    requires |tally| > 0
    ensures forall a :: 0 <= a < |tally| ==> tally[a].1 <= tally[MostCommonIndex(tally)].1
    ensures forall a :: 0 <= a < MostCommonIndex(tally) ==> tally[a].1 < tally[MostCommonIndex(tally)].1
  {
    if |tally| > 1 {
      var t0 := Init(tally);
      MostCommonIndexIsFirstMaximal(t0);
      assert forall a :: 0 <= a < |t0| ==> tally[a] == t0[a];
    }
  }

  // ---------------------------------------------------------------------
  // The representative

  /** The minimum is a candidate, and no candidate has a smaller alpha. */
  lemma {:induction false} MinByAlphaIsMinimal(s: seq<Record>)
    requires |s| > 0
    ensures MinByAlpha(s) in s
    ensures forall q :: q in s ==> MinByAlpha(s).alpha <= q.alpha
  {
    if |s| > 1 {
      var s0 := Init(s);
      MinByAlphaIsMinimal(s0);
      assert s == s0 + [Last(s)];
    }
  }

  /** Member `k` has text `t`, minimal alpha among the members with text `t`,
      and strictly smaller alpha than every earlier member with text `t`. */
  ghost predicate FirstMinimal(g: seq<Record>, t: string, k: int)
  {
    && 0 <= k < |g|
    && g[k].text == t
    && (forall i :: 0 <= i < |g| && g[i].text == t ==> g[k].alpha <= g[i].alpha)
    && (forall i :: 0 <= i < k && g[i].text == t ==> g[k].alpha < g[i].alpha)
  }

  /** `min(best_points, key=alpha)` picks the first member of text `t` of minimal alpha. */
  lemma {:induction false} RepresentativeIsFirstMinimal(g: seq<Record>, t: string)
    requires |WithText(g, t)| > 0
    ensures exists k :: FirstMinimal(g, t, k) && MinByAlpha(WithText(g, t)) == g[k]
  {
    var g0, x := Init(g), Last(g);
    assert g == g0 + [x];
    WithTextSnoc(g0, x, t);
    if x.text == t && |WithText(g0, t)| == 0 {
      RepresentativeFirstOfText(g0, x, t);
      assert FirstMinimal(g, t, |g0|) && MinByAlpha(WithText(g, t)) == g[|g0|];
    } else {
      assert |WithText(g0, t)| > 0;
      RepresentativeIsFirstMinimal(g0, t);
      var k :| FirstMinimal(g0, t, k) && MinByAlpha(WithText(g0, t)) == g0[k];
      if x.text != t {
        RepresentativeOtherText(g0, x, t, k);
        assert FirstMinimal(g, t, k) && MinByAlpha(WithText(g, t)) == g[k];
      } else {
        RepresentativeSameText(g0, x, t, k);
        var j := if x.alpha < g0[k].alpha then |g0| else k;
        assert FirstMinimal(g, t, j) && MinByAlpha(WithText(g, t)) == g[j];
      }
    }
  }

  /** A member of another text changes neither the candidates nor the choice. */
  lemma {:induction false} RepresentativeOtherText(g: seq<Record>, x: Record, t: string, k: int)
    requires |WithText(g, t)| > 0 && FirstMinimal(g, t, k) && MinByAlpha(WithText(g, t)) == g[k]
    requires x.text != t
    ensures FirstMinimal(g + [x], t, k) && MinByAlpha(WithText(g + [x], t)) == (g + [x])[k]
  {
    WithTextSnoc(g, x, t);
    assert WithText(g, t) + [] == WithText(g, t);
    assert forall i :: 0 <= i < |g| ==> (g + [x])[i] == g[i];
  }

  /** The first member of text `t` is the first candidate and is chosen. */
  lemma {:induction false} RepresentativeFirstOfText(g: seq<Record>, x: Record, t: string)
    requires x.text == t && |WithText(g, t)| == 0
    ensures FirstMinimal(g + [x], t, |g|) && MinByAlpha(WithText(g + [x], t)) == x
  {
    WithTextSnoc(g, x, t);
    WithTextEmptyIff(g, t);
    assert WithText(g + [x], t) == [x];
    var g' := g + [x];
    assert forall i :: 0 <= i < |g| ==> g'[i] == g[i] && g'[i].text != t;
  }

  /** A later candidate replaces the choice only with a strictly smaller alpha. */
  lemma {:induction false} RepresentativeSameText(g: seq<Record>, x: Record, t: string, k: int)
    requires |WithText(g, t)| > 0 && FirstMinimal(g, t, k) && MinByAlpha(WithText(g, t)) == g[k]
    requires x.text == t
    ensures var j := if x.alpha < g[k].alpha then |g| else k;
            FirstMinimal(g + [x], t, j) && MinByAlpha(WithText(g + [x], t)) == (g + [x])[j]
  {
    var s0 := WithText(g, t);
    WithTextSnoc(g, x, t);
    InitOfSnoc(s0, x);
    assert forall i :: 0 <= i < |g| ==> (g + [x])[i] == g[i];
  }

  lemma {:induction false} WithTextSnoc(g: seq<Record>, x: Record, t: string)
    ensures WithText(g + [x], t) == WithText(g, t) + (if x.text == t then [x] else [])
  {
    InitOfSnoc(g, x);
  }

  /** The candidates are members of the group with text `t`. */
  lemma {:induction false} WithTextMembers(g: seq<Record>, t: string)
    ensures forall q :: q in WithText(g, t) ==> q in g && q.text == t
  {
    if |g| > 0 {
      var g0 := Init(g);
      WithTextMembers(g0, t);
      assert g == g0 + [Last(g)];
    }
  }

  /** There is no candidate exactly when no member has text `t`. */
  lemma {:induction false} WithTextEmptyIff(g: seq<Record>, t: string)
    ensures |WithText(g, t)| == 0 <==> forall k :: 0 <= k < |g| ==> g[k].text != t
  {
    if |g| > 0 {
      var g0 := Init(g);
      WithTextEmptyIff(g0, t);
      assert g == g0 + [Last(g)];
      assert forall k :: 0 <= k < |g0| ==> g[k] == g0[k];
    }
  }

  /** Every member with text `t` is a candidate. */
  lemma {:induction false} WithTextContains(g: seq<Record>, t: string, i: int)
    requires 0 <= i < |g| && g[i].text == t
    ensures g[i] in WithText(g, t)
  {
    var g0 := Init(g);
    assert g == g0 + [Last(g)];
    if i < |g0| {
      assert g0[i] == g[i];
      WithTextContains(g0, t, i);
    }
  }

  // ---------------------------------------------------------------------
  // The floor mean

  lemma {:induction false} SumBounds(xs: seq<int>, lo: int, hi: int)
    requires forall i :: 0 <= i < |xs| ==> lo <= xs[i] <= hi
    ensures lo * |xs| <= Sum(xs) <= hi * |xs|
  {
    if |xs| > 0 {
      SumBounds(Init(xs), lo, hi);
      assert lo * |xs| == lo * (|xs| - 1) + lo;
      assert hi * |xs| == hi * (|xs| - 1) + hi;
    }
  }

  /** `FloorDiv(s, n)` is the floor of `s / n`: the largest `q` with `q * n <= s`. */
  lemma {:induction false} FloorDivIsFloor(s: int, n: int)
    requires n > 0
    ensures FloorDiv(s, n) * n <= s < FloorDiv(s, n) * n + n
    decreases if s < 0 then n - s else s
  {
    if s < 0 {
      FloorDivIsFloor(s + n, n);
      var q := FloorDiv(s + n, n);
      assert (q - 1) * n == q * n - n;
    } else if s >= n {
      FloorDivIsFloor(s - n, n);
      var q := FloorDiv(s - n, n);
      assert (q + 1) * n == q * n + n;
    }
  }

  /** The floor quotient is the only `q` with `q * n <= s < q * n + n`. */
  lemma FloorDivUnique(s: int, n: int, q: int)
    requires n > 0 && q * n <= s < q * n + n
    ensures FloorDiv(s, n) == q
  {
    FloorDivIsFloor(s, n);
    var f := FloorDiv(s, n);
    assert (f + 1) * n == f * n + n;
    assert (q + 1) * n == q * n + n;
    if f < q {
      MulMonotone(f + 1, q, n);
    } else if f > q {
      MulMonotone(q + 1, f, n);
    }
  }

  /** For a positive divisor `FloorDiv` agrees with Dafny's Euclidean `/`. */
  lemma FloorDivIsDivision(s: int, n: int)
    requires n > 0
    ensures FloorDiv(s, n) == s / n
  {
    assert s == (s / n) * n + s % n && 0 <= s % n < n;
    FloorDivUnique(s, n, s / n);
  }

  lemma MulMonotone(a: int, b: int, n: int)
    requires a <= b && n > 0
    ensures a * n <= b * n
  {
  }

  lemma FloorDivBounds(s: int, n: int, lo: int, hi: int)
    requires n > 0 && lo * n <= s <= hi * n
    ensures lo <= FloorDiv(s, n) <= hi
  {
    FloorDivIsFloor(s, n);
    var q := FloorDiv(s, n);
    assert (q + 1) * n == q * n + n;
    assert (hi + 1) * n == hi * n + n;
    if q < lo {
      MulMonotone(q + 1, lo, n);
    }
    if q > hi {
      MulMonotone(hi + 1, q, n);
    }
  }

  /** The floor mean lies between the least and the greatest value averaged. */
  lemma {:induction false} FloorMeanWithinValues(xs: seq<int>)
    requires |xs| > 0
    ensures exists i :: 0 <= i < |xs| && xs[i] <= FloorMean(xs)
    ensures exists j :: 0 <= j < |xs| && FloorMean(xs) <= xs[j]
  {
    var lo, hi := MinIndex(xs), MaxIndex(xs);
    SumBounds(xs, xs[lo], xs[hi]);
    FloorDivBounds(Sum(xs), |xs|, xs[lo], xs[hi]);
  }

  function MinIndex(xs: seq<int>): (m: nat)
    requires |xs| > 0
    ensures m < |xs| && forall i :: 0 <= i < |xs| ==> xs[m] <= xs[i]
  {
    if |xs| == 1 then 0
    else var b := MinIndex(Init(xs)); if Last(xs) < xs[b] then |xs| - 1 else b
  }

  function MaxIndex(xs: seq<int>): (m: nat)
    requires |xs| > 0
    ensures m < |xs| && forall i :: 0 <= i < |xs| ==> xs[i] <= xs[m]
  {
    if |xs| == 1 then 0
    else var b := MaxIndex(Init(xs)); if Last(xs) > xs[b] then |xs| - 1 else b
  }

  /** Python's `//` floors instead of truncating: the mean of -1 and 0 is -1, not 0. */
  lemma {:induction false} FloorMeanRoundsDown()
    ensures FloorMean([-1, 0]) == -1
  {
    assert Init([-1, 0]) == [-1];
    assert Init([-1]) == [];
    assert Sum([-1, 0]) == -1;
    FloorDivUnique(-1, 2, -1);
  }

  // ---------------------------------------------------------------------
  // Properties of the resolved record

  /** The resolved text is the group's stable majority text. */
  lemma {:induction false} ResolveTextIsStableMajority(g: seq<Record>)
    requires |g| > 0
    ensures FirstIndex(g, Resolve(g).text) < |g|
    ensures forall k :: 0 <= k < |g| ==> CountText(g, g[k].text) <= CountText(g, Resolve(g).text)
    ensures forall k :: 0 <= k < FirstIndex(g, Resolve(g).text) ==>
              CountText(g, g[k].text) < CountText(g, Resolve(g).text)
  {
    MajorityIsStable(g);
  }

  /** Score, alpha and beta come from one member: the first member with the
      resolved text whose alpha is minimal among the members with that text. */
  lemma {:induction false} ResolveTakesRepresentative(g: seq<Record>)
    requires |g| > 0
    ensures exists k :: FirstMinimal(g, Resolve(g).text, k) &&
              Resolve(g).score == g[k].score && Resolve(g).alpha == g[k].alpha && Resolve(g).beta == g[k].beta
  {
    MajorityIsStable(g);
    WithTextContains(g, MajorityText(g), FirstIndex(g, MajorityText(g)));
    RepresentativeIsFirstMinimal(g, MajorityText(g));
  }

  /** Each resolved corner coordinate lies between some member's coordinate
      below it and some member's coordinate above it. */
  lemma {:induction false} ResolveCornersWithinMembers(g: seq<Record>, axis: Axis)
    requires |g| > 0
    ensures exists i :: 0 <= i < |g| && Coordinate(g[i], axis) <= Coordinate(Resolve(g), axis)
    ensures exists j :: 0 <= j < |g| && Coordinate(Resolve(g), axis) <= Coordinate(g[j], axis)
  {
    var xs := Column(g, axis);
    FloorMeanWithinValues(xs);
    assert Coordinate(Resolve(g), axis) == FloorMean(xs);
    var i :| 0 <= i < |xs| && xs[i] <= FloorMean(xs);
    var j :| 0 <= j < |xs| && FloorMean(xs) <= xs[j];
    assert Coordinate(g[i], axis) <= Coordinate(Resolve(g), axis);
    assert Coordinate(Resolve(g), axis) <= Coordinate(g[j], axis);
  }

  /** A group of copies of one record resolves to that record. */
  lemma {:induction false} ResolveUniform(g: seq<Record>, p: Record)
    requires |g| > 0 && forall k :: 0 <= k < |g| ==> g[k] == p
    ensures Resolve(g) == p
  {
    MajorityIsStable(g);
    ResolveTakesRepresentative(g);
    UniformMean(g, p, TopLeftX);
    UniformMean(g, p, TopLeftY);
    UniformMean(g, p, BottomRightX);
    UniformMean(g, p, BottomRightY);
  }

  /** Members that all share one coordinate average to it. */
  lemma {:induction false} UniformMean(g: seq<Record>, p: Record, axis: Axis)
    requires |g| > 0 && forall k :: 0 <= k < |g| ==> Coordinate(g[k], axis) == Coordinate(p, axis)
    ensures MeanCoordinate(g, axis) == Coordinate(p, axis)
  {
    var xs := Column(g, axis);
    var c := Coordinate(p, axis);
    SumBounds(xs, c, c);
    FloorDivUnique(Sum(xs), |xs|, c);
  }

  /** Members that agree with `p` in everything but alpha and beta, as one
      reading seen in several scans does, resolve to `p`'s text, score and
      corners, with the alpha and beta of the first member of minimal alpha. */
  lemma {:induction false} ResolveAgreeing(g: seq<Record>, p: Record)
    requires |g| > 0
    requires forall k :: 0 <= k < |g| ==> g[k] == p.(alpha := g[k].alpha, beta := g[k].beta)
    ensures Resolve(g).text == p.text && Resolve(g).score == p.score
    ensures Resolve(g).topLeft == p.topLeft && Resolve(g).bottomRight == p.bottomRight
    ensures exists k :: FirstMinimal(g, p.text, k) && Resolve(g).alpha == g[k].alpha && Resolve(g).beta == g[k].beta
  {
    ResolveTextIsStableMajority(g);
    var i := FirstIndex(g, Resolve(g).text);
    assert g[i].text == p.text;
    ResolveTakesRepresentative(g);
    UniformMean(g, p, TopLeftX);
    UniformMean(g, p, TopLeftY);
    UniformMean(g, p, BottomRightX);
    UniformMean(g, p, BottomRightY);
  }

  /** A group of one record resolves to that record. */
  lemma {:induction false} ResolveSingleton(p: Record)
    ensures Resolve([p]) == p
  {
    ResolveUniform([p], p);
  }

  /** Two texts seen once each: the first one wins. */
  lemma {:induction false} ResolveTieGoesToFirst()
    ensures var p := Record("12", 0.9, Point(10, 10), Point(30, 30), 1.0, 30.0);
            var q := Record("17", 0.6, Point(11, 10), Point(30, 31), 1.1, 30.0);
            Resolve([p, q]).text == "12" && Resolve([p, q]).score == 0.9
  {
    var p := Record("12", 0.9, Point(10, 10), Point(30, 30), 1.0, 30.0);
    var q := Record("17", 0.6, Point(11, 10), Point(30, 31), 1.1, 30.0);
    var g := [p, q];
    assert Init(g) == [p];
    assert Init([p]) == [];
    assert CountTexts([p]) == [("12", 1)];
    assert "17" != "12";
    assert CountTexts(g) == [("12", 1), ("17", 1)];
    assert Init(CountTexts(g)) == [("12", 1)];
    assert MajorityText(g) == "12";
    assert WithText(g, "12") == [p];
  }

  /** Corners (10,10)-(30,30) and (12,14)-(31,33) average to (11,12)-(30,31). */
  lemma {:induction false} ResolveAveragesCorners()
    ensures var p := Record("42", 0.9, Point(10, 10), Point(30, 30), 1.0, 30.0);
            var q := Record("42", 0.8, Point(12, 14), Point(31, 33), 1.1, 40.0);
            Resolve([p, q]).topLeft == Point(11, 12) && Resolve([p, q]).bottomRight == Point(30, 31)
  {
    var p := Record("42", 0.9, Point(10, 10), Point(30, 30), 1.0, 30.0);
    var q := Record("42", 0.8, Point(12, 14), Point(31, 33), 1.1, 40.0);
    PairMean(p, q, TopLeftX, 11);
    PairMean(p, q, TopLeftY, 12);
    PairMean(p, q, BottomRightX, 30);
    PairMean(p, q, BottomRightY, 31);
  }

  /** The floor mean of two members' coordinates. */
  lemma {:induction false} PairMean(p: Record, q: Record, axis: Axis, m: int)
    requires 2 * m <= Coordinate(p, axis) + Coordinate(q, axis) < 2 * m + 2
    ensures MeanCoordinate([p, q], axis) == m
  {
    var xs := Column([p, q], axis);
    assert xs == [Coordinate(p, axis), Coordinate(q, axis)];
    assert Init(xs) == [Coordinate(p, axis)];
    assert Init(Init(xs)) == [];
    assert Sum(Init(xs)) == Coordinate(p, axis);
    assert Sum(xs) == Coordinate(p, axis) + Coordinate(q, axis);
    FloorDivUnique(Sum(xs), 2, m);
  }

  // ---------------------------------------------------------------------
  // The output of purify_data

  /** The contribution of one group to the output: nothing for an empty group. */
  function PurifiedOne(g: seq<Record>): seq<Record>
  {
    if |g| == 0 then [] else [Resolve(g)]
  }

  /** One resolved record per group, in group order, when no group is empty. */
  lemma {:induction false} PurifiedOnePerGroup(groups: seq<seq<Record>>)
    requires forall j :: 0 <= j < |groups| ==> |groups[j]| > 0
    ensures |Purified(groups)| == |groups|
    ensures forall j :: 0 <= j < |groups| ==> Purified(groups)[j] == Resolve(groups[j])
  {
    if |groups| > 0 {
      var front, x := Init(groups), Last(groups);
      assert forall j :: 0 <= j < |front| ==> front[j] == groups[j];
      PurifiedOnePerGroup(front);
      var r := Purified(groups);
      assert r == Purified(front) + [Resolve(x)];
      forall j | 0 <= j < |groups|
        ensures r[j] == Resolve(groups[j])
      {
        if j < |front| {
          assert r[j] == Purified(front)[j];
        }
      }
    }
  }

  lemma {:induction false} PurifiedSnoc(front: seq<seq<Record>>, x: seq<Record>)
    ensures Purified(front + [x]) == Purified(front) + PurifiedOne(x)
  {
    InitOfSnoc(front, x);
  }

  lemma {:induction false} PurifiedSnocNonEmpty(front: seq<seq<Record>>, x: seq<Record>)
    requires |x| > 0
    ensures Purified(front + [x]) == Purified(front) + [Resolve(x)]
  {
    InitOfSnoc(front, x);
  }

  /** Purifying concatenated group lists concatenates the outputs. */
  lemma {:induction false} PurifiedConcat(a: seq<seq<Record>>, b: seq<seq<Record>>)
    ensures Purified(a + b) == Purified(a) + Purified(b)
  {
    if |b| == 0 {
      assert a + b == a;
    } else {
      var b0, x := Init(b), Last(b);
      calc {
        Purified(a + b);
      == { assert a + b == (a + b0) + [x]; InitOfSnoc(a + b0, x); }
        Purified(a + b0) + PurifiedOne(x);
      == { PurifiedConcat(a, b0); }
        Purified(a) + Purified(b0) + PurifiedOne(x);
      }
    }
  }

  lemma {:induction false} PurifiedSkipsEmpty(groups: seq<seq<Record>>)
    ensures Purified(groups + [[]]) == Purified(groups)
  {
    InitOfSnoc(groups, []);
  }
}
