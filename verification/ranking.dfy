/** `sorted(cand, key=lambda d: -d.confidence)`, the last step of every
    span strategy in `untriseptium/backend/tesseract.py`: candidates in
    descending confidence, and, since Python's sort is stable, candidates of
    equal confidence in the order they were found. */
module Ranking {
  import opened Geometry

  /** Puts `x` before the first element it is at least as confident as. */
  function Insert(x: Locator, s: seq<Locator>): (r: seq<Locator>)
    ensures |r| == |s| + 1
    ensures multiset(r) == multiset(s) + multiset{x}
    ensures r[0] == x || (s != [] && r[0] == s[0])
  {
    if s == [] then [x]
    else if x.confidence >= s[0].confidence then [x] + s
    else
      assert s == [s[0]] + s[1..];
      [s[0]] + Insert(x, s[1..])
  }

  /** The candidates by descending confidence, ties in their first order. */
  function SortByConfidence(s: seq<Locator>): (r: seq<Locator>)
    ensures |r| == |s|
  {
    if s == [] then [] else Insert(s[0], SortByConfidence(s[1..]))
  }

  predicate Descending(s: seq<Locator>) {
    forall i, j :: 0 <= i < j < |s| ==> s[i].confidence >= s[j].confidence
  }

  /** The elements of `s` whose confidence is `c`, in order. */
  function WithConfidence(s: seq<Locator>, c: real): seq<Locator> {
    if s == [] then []
    else (if s[0].confidence == c then [s[0]] else []) + WithConfidence(s[1..], c)
  }

  lemma {:induction false} InsertDescending(x: Locator, s: seq<Locator>)
    requires Descending(s)
    ensures Descending(Insert(x, s))
  {
    if s == [] {
    } else if x.confidence >= s[0].confidence {
      ConsDescending(x, s);
    } else {
      InsertDescending(x, s[1..]);
      ConsDescending(s[0], Insert(x, s[1..]));
    }
  }

  /** A descending sequence stays descending under a head at least as
      confident as its first element. */
  lemma ConsDescending(y: Locator, s: seq<Locator>)
    requires Descending(s) && (s != [] ==> y.confidence >= s[0].confidence)
    ensures Descending([y] + s)
  {
    var r := [y] + s;
    forall i, j | 0 <= i < j < |r|
      ensures r[i].confidence >= r[j].confidence
    {
      if i == 0 {
        assert r[j] == s[j - 1];
      } else {
        assert r[i] == s[i - 1] && r[j] == s[j - 1];
      }
    }
  }

  /** The sort returns the candidates in descending confidence ... */
  lemma {:induction false} SortDescending(s: seq<Locator>)
    ensures Descending(SortByConfidence(s))
  {
    if s != [] {
      SortDescending(s[1..]);
      InsertDescending(s[0], SortByConfidence(s[1..]));
    }
  }

  /** ... and loses or adds none: it is a permutation. */
  lemma {:induction false} SortPermutes(s: seq<Locator>)
    ensures multiset(SortByConfidence(s)) == multiset(s)
  {
    if s != [] {
      SortPermutes(s[1..]);
      assert s == [s[0]] + s[1..];
    }
  }

  /** The sorted candidates are the candidates. */
  lemma SortKeepsMembers(s: seq<Locator>)
    ensures forall c :: c in SortByConfidence(s) <==> c in s
  {
    SortPermutes(s);
    forall c
      ensures c in SortByConfidence(s) <==> c in s
    {
      assert c in SortByConfidence(s) <==> c in multiset(SortByConfidence(s));
      assert c in s <==> c in multiset(s);
    }
  }

  lemma WithConfidenceCons(x: Locator, s: seq<Locator>, c: real)
    ensures WithConfidence([x] + s, c) == (if x.confidence == c then [x] else []) + WithConfidence(s, c)
  {
    assert ([x] + s)[1..] == s;
  }

  /** Inserting `x` keeps the order of every confidence class, and puts `x`
      first in its own: the elements it is placed after are strictly more
      confident. */
  lemma {:induction false} InsertStable(x: Locator, s: seq<Locator>, c: real)
    ensures WithConfidence(Insert(x, s), c) == (if x.confidence == c then [x] else []) + WithConfidence(s, c)
  {
    if s == [] {
      WithConfidenceCons(x, [], c);
    } else if x.confidence >= s[0].confidence {
      WithConfidenceCons(x, s, c);
    } else {
      var t := s[1..];
      var rest := Insert(x, t);
      assert Insert(x, s) == [s[0]] + rest;
      assert s == [s[0]] + t;
      InsertStable(x, t, c);
      WithConfidenceCons(s[0], rest, c);
      WithConfidenceCons(s[0], t, c);
      if s[0].confidence == c {
        assert WithConfidence(rest, c) == WithConfidence(t, c);
        assert WithConfidence(Insert(x, s), c) == [s[0]] + WithConfidence(t, c);
        assert WithConfidence(s, c) == [s[0]] + WithConfidence(t, c);
      } else {
        assert WithConfidence(Insert(x, s), c) == WithConfidence(rest, c);
        assert WithConfidence(s, c) == WithConfidence(t, c);
      }
    }
  }

  /** Stability: the candidates of any one confidence come out in the
      order they went in. */
  lemma {:induction false} SortStable(s: seq<Locator>, c: real)
    ensures WithConfidence(SortByConfidence(s), c) == WithConfidence(s, c)
  {
    if s != [] {
      SortStable(s[1..], c);
      InsertStable(s[0], SortByConfidence(s[1..]), c);
    }
  }

  /** Index of the first element of greatest confidence. */
  function FirstBest(s: seq<Locator>): (k: nat)
    requires s != []
    ensures k < |s|
    ensures forall j :: 0 <= j < |s| ==> s[j].confidence <= s[k].confidence
    ensures forall j :: 0 <= j < k ==> s[j].confidence < s[k].confidence
  {
    if |s| == 1 then 0
    else
      var k := FirstBest(s[1..]);
      if s[0].confidence >= s[k + 1].confidence then 0 else k + 1
  }

  /** The elements of class `c` that come before position `k`. */
  lemma {:induction false} WithConfidenceSkip(s: seq<Locator>, k: nat, c: real)
    requires k < |s| && s[k].confidence == c
    requires forall j :: 0 <= j < k ==> s[j].confidence != c
    ensures WithConfidence(s, c) != [] && WithConfidence(s, c)[0] == s[k]
  {
    WithConfidenceCons(s[0], s[1..], c);
    assert s == [s[0]] + s[1..];
    if k > 0 {
      WithConfidenceSkip(s[1..], k - 1, c);
    }
  }

  /** `texts[0]` of `find_text`: the head of the sorted list is the first
      of the most confident candidates. */
  lemma SortHeadIsFirstBest(s: seq<Locator>)
    requires s != []
    ensures SortByConfidence(s)[0] == s[FirstBest(s)]
  {
    var r := SortByConfidence(s);
    var k := FirstBest(s);
    var c := s[k].confidence;
    SortDescending(s);
    SortPermutes(s);
    SortStable(s, c);
    assert s[k] in multiset(r);
    var i :| 0 <= i < |r| && r[i] == s[k];
    assert r[0].confidence >= c;
    assert r[0] in multiset(s);
    var j :| 0 <= j < |s| && s[j] == r[0];
    assert r[0].confidence == c;
    WithConfidenceSkip(s, k, c);
    WithConfidenceSkip(r, 0, c);
  }
}
