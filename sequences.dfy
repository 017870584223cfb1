/** Generic facts about sequences used by the filter and the clusterer. */
module Sequences {

  function Last<T>(s: seq<T>): T
    requires |s| > 0
  {
    s[|s| - 1]
  }

  function Init<T>(s: seq<T>): seq<T>
    requires |s| > 0
  {
    s[..|s| - 1]
  }

  /** `a` can be obtained from `b` by deleting elements, keeping the order of the rest. */
  predicate IsSubseq<T(==)>(a: seq<T>, b: seq<T>)
    decreases |b|
  {
    if |a| == 0 then true
    else if |b| == 0 then false
    else (Last(a) == Last(b) && IsSubseq(Init(a), Init(b))) || IsSubseq(a, Init(b))
  }

  /** The concatenation of the inner sequences, in order. */
  function Flatten<T>(ss: seq<seq<T>>): seq<T>
  {
    if |ss| == 0 then [] else Flatten(Init(ss)) + Last(ss)
  }

  lemma {:induction false} InitOfSnoc<T>(s: seq<T>, x: T)
    ensures Init(s + [x]) == s && Last(s + [x]) == x
  {
    assert (s + [x])[..|s|] == s;
  }

  /** Appending the same element to both sides keeps a subsequence. */
  lemma {:induction false} SubseqSnocBoth<T>(a: seq<T>, b: seq<T>, x: T)
    requires IsSubseq(a, b)
    ensures IsSubseq(a + [x], b + [x])
  {
    InitOfSnoc(a, x);
    InitOfSnoc(b, x);
  }

  /** Appending to the larger side only keeps a subsequence. */
  lemma {:induction false} SubseqSnocRight<T>(a: seq<T>, b: seq<T>, x: T)
    requires IsSubseq(a, b)
    ensures IsSubseq(a, b + [x])
  {
    InitOfSnoc(b, x);
  }

  lemma {:induction false} SubseqSingleton<T>(b: seq<T>, x: T)
    ensures IsSubseq([x], b + [x])
  {
    InitOfSnoc(b, x);
    assert Init([x]) == [];
  }

  /** Every element of a subsequence is an element of the sequence. */
  lemma {:induction false} SubseqMember<T>(a: seq<T>, b: seq<T>, x: T)
    requires IsSubseq(a, b) && x in a
    ensures x in b
  {
    if x == Last(a) && Last(a) == Last(b) {
    } else if Last(a) == Last(b) && IsSubseq(Init(a), Init(b)) {
      assert a == Init(a) + [Last(a)];
      if x != Last(a) {
        assert x in Init(a);
        SubseqMember(Init(a), Init(b), x);
      }
      assert b == Init(b) + [Last(b)];
    } else {
      SubseqMember(a, Init(b), x);
      assert b == Init(b) + [Last(b)];
    }
  }

  /** Replacing one inner sequence by its extension adds exactly that element to the flattening. */
  lemma {:induction false} FlattenUpdateSnoc<T>(ss: seq<seq<T>>, j: nat, x: T)
    requires j < |ss|
    ensures multiset(Flatten(ss[j := ss[j] + [x]])) == multiset(Flatten(ss)) + multiset{x}
  {
    var ss' := ss[j := ss[j] + [x]];
    if j == |ss| - 1 {
      assert Init(ss') == Init(ss);
    } else {
      assert Init(ss') == Init(ss)[j := ss[j] + [x]];
      FlattenUpdateSnoc(Init(ss), j, x);
    }
  }

  lemma {:induction false} FlattenSnoc<T>(ss: seq<seq<T>>, s: seq<T>)
    ensures Flatten(ss + [s]) == Flatten(ss) + s
  {
    InitOfSnoc(ss, s);
  }
}
