/** `_find_texts_word` and `_find_texts_char` of
    `untriseptium/backend/tesseract.py`: two forward dynamic programs that
    read the OCR records in order and, for every prefix of the wanted text,
    keep the most confident chain of records spelling it.

    Both programs share one skeleton. Slot `i` of the state holds the best
    locator spelling the first `i` units of the text (words for
    `_find_texts_word`, characters for `_find_texts_char`); an `Edge` from
    slot `a` to slot `b` is one record standing for the units between them,
    matched against the edge's token. The word program has one edge per word
    (`i` to `i + 1`, the word itself); the char program one per substring
    (`a` to `b`, the stripped substring), in the order of its two nested
    loops. */
module Alignment {
  import opened Outcomes
  import opened Geometry
  import opened Records
  import opened Text
  import opened Scoring
  import opened Ranking

  /** What the slots count: the words of `text.split(' ')` or the
      characters of the text. */
  datatype Units = Words(words: seq<string>) | Chars(text: string)

  /** The number of units, which is the index of the last slot. */
  function Count(u: Units): nat {
    match u
    case Words(words) => |words|
    case Chars(text) => |text|
  }

  /** One transition: a record standing for the units `from` to `to`
      moves from slot `from` to slot `to`. */
  datatype Edge = Edge(from: nat, to: nat)

  /** Every edge moves forward and stays within the `last + 1` slots. */
  predicate ValidEdges(edges: seq<Edge>, last: nat) {
    forall j :: 0 <= j < |edges| ==> edges[j].from < edges[j].to <= last
  }

  /** The text a record is matched against on edge `e`: the word itself in
      `_find_texts_word`, `text[a:b].strip()` in `_find_texts_char`. */
  function Token(u: Units, e: Edge): string
    requires e.from < e.to <= Count(u)
  {
    match u
    case Words(words) => words[e.from]
    case Chars(text) => Strip(text[e.from..e.to])
  }

  /** The edges of `_find_texts_word`: word `i` leads from slot `i` to slot
      `i + 1`. */
  function WordEdges(n: nat): (es: seq<Edge>)
    ensures |es| == n
    ensures forall i :: 0 <= i < n ==> es[i] == Edge(i, i + 1)
    ensures ValidEdges(es, n)
  {
    seq(n, i requires 0 <= i < n => Edge(i, i + 1))
  }

  /** The edges from slot `a` to the slots `b, b + 1, ..., n`: the inner
      loop of `_find_texts_char`. */
  function SpansFrom(n: nat, a: nat, b: nat): (es: seq<Edge>)
    requires a < b
    ensures |es| == if b <= n then n + 1 - b else 0
    ensures forall j :: 0 <= j < |es| ==> es[j] == Edge(a, b + j) && b + j <= n
    decreases n + 1 - b
  {
    if b > n then []
    else
      var rest := SpansFrom(n, a, b + 1);
      var es := [Edge(a, b)] + rest;
      assert forall j :: 0 < j < |es| ==> es[j] == rest[j - 1];
      es
  }

  /** The edges of the outer loop from slot `a` on. */
  function SpansAfter(n: nat, a: nat): (es: seq<Edge>)
    ensures forall j :: 0 <= j < |es| ==> a <= es[j].from < es[j].to <= n
    decreases n - a
  {
    if a >= n then []
    else
      var head := SpansFrom(n, a, a + 1);
      var rest := SpansAfter(n, a + 1);
      assert forall j :: |head| <= j < |head| + |rest| ==> (head + rest)[j] == rest[j - |head|];
      head + rest
  }

  /** The edges of `_find_texts_char` over `n` characters: every span
      `[a, b)`, for `a` ascending and then `b` ascending. */
  function CharEdges(n: nat): (es: seq<Edge>)
    ensures ValidEdges(es, n)
  {
    SpansAfter(n, 0)
  }

  /** Every span has its edge. */
  lemma {:induction false} SpansAfterComplete(n: nat, a: nat, x: nat, y: nat)
    requires a <= x < y <= n
    ensures exists j :: 0 <= j < |SpansAfter(n, a)| && SpansAfter(n, a)[j] == Edge(x, y)
    decreases n - a
  {
    var head := SpansFrom(n, a, a + 1);
    var rest := SpansAfter(n, a + 1);
    var es := SpansAfter(n, a);
    assert es == head + rest;
    if x == a {
      assert es[y - a - 1] == head[y - a - 1] == Edge(x, y);
    } else {
      SpansAfterComplete(n, a + 1, x, y);
      var j :| 0 <= j < |rest| && rest[j] == Edge(x, y);
      assert es[|head| + j] == rest[j] == Edge(x, y);
    }
  }

  /** `_find_texts_char` tries every substring of the text. */
  lemma CharEdgesComplete(n: nat, x: nat, y: nat)
    requires x < y <= n
    ensures exists j :: 0 <= j < |CharEdges(n)| && CharEdges(n)[j] == Edge(x, y)
  {
    SpansAfterComplete(n, 0, x, y);
    var j :| 0 <= j < |SpansAfter(n, 0)| && SpansAfter(n, 0)[j] == Edge(x, y);
    assert CharEdges(n)[j] == Edge(x, y);
  }

  /** The edges of the dynamic program over `u`. */
  function EdgesOf(u: Units): (es: seq<Edge>)
    ensures ValidEdges(es, Count(u))
  {
    match u
    case Words(words) => WordEdges(|words|)
    case Chars(text) => CharEdges(|text|)
  }

  // ---------------------------------------------------------------------
  // The state

  /** `t1` of `init_dp`: slot 0, the empty prefix, is certain. */
  function Start(): (t: Locator)
    ensures t.text == [] && t.confidence == 1.0 && t.location.None?
  {
    Locator([], 1.0, None)
  }

  /** `init_dp()`: `last + 1` slots, the first certain and the others fresh
      `TextLocator`s. */
  function InitDp(last: nat): (dp: seq<Locator>)
    ensures |dp| == last + 1 && dp[0] == Start()
    ensures forall i :: 1 <= i <= last ==> dp[i] == FreshLocator()
  {
    seq(last + 1, i requires 0 <= i <= last => if i == 0 then Start() else FreshLocator())
  }

  /** `dp0` and `cand` between two records. */
  datatype Search = Search(slots: seq<Locator>, cand: seq<Locator>)

  // ---------------------------------------------------------------------
  // One record

  /** The relaxation loop for one record, from edge `j` on: an edge whose
      token the record matches below the threshold is skipped; otherwise
      extending the state at `from` by the record gives a confidence, and
      when that beats what `dp1` holds at `to` the extension is stored there
      and, at the last slot, also kept as a candidate. */
  function Relax(m: Maths, u: Units, edges: seq<Edge>, dp0: seq<Locator>, ocr: OcrText, j: nat, dp1: seq<Locator>, cand: seq<Locator>)
    : (r: Result<(seq<Locator>, seq<Locator>)>)
    requires ValidEdges(edges, Count(u)) && |dp0| == |dp1| == Count(u) + 1 && j <= |edges|
    ensures r.Ok? ==> |r.value.0| == |dp1| && r.value.0[0] == dp1[0]
    ensures r.Ok? ==> |cand| <= |r.value.1| && forall i :: 0 <= i < |cand| ==> r.value.1[i] == cand[i]
    decreases |edges| - j
  {
    if j == |edges| then Ok((dp1, cand))
    else
      var e := edges[j];
      var conf :- ConfOcrText(ocr.text, ocr.confidence, Token(u, e));
      if conf < ConfidenceThreshold then Relax(m, u, edges, dp0, ocr, j + 1, dp1, cand)
      else
        var extended :- ConfNextWord(m, dp0[e.from], ocr, conf);
        if extended > dp1[e.to].confidence then
          var d := NewTextLocator(dp0[e.from], ocr, extended);
          Relax(m, u, edges, dp0, ocr, j + 1, dp1[e.to := d], if e.to == Count(u) then cand + [d] else cand)
        else Relax(m, u, edges, dp0, ocr, j + 1, dp1, cand)
  }

  /** Whether the new state `newer` replaces the `kept` one at a record
      located at `current`: when it beats `kept`'s penalised confidence. */
  function Replaces(m: Maths, kept: Locator, newer: Locator, current: Rect): Result<bool> {
    var c :- ConfOldWord(m, kept, current);
    Ok(newer.confidence > c)
  }

  /** The merge loop from slot `i` on: each slot of `dp0` is replaced by
      that of `dp1` when `dp1`'s beats `dp0`'s penalised confidence. The
      penalised value is only compared; what is stored is one of the two
      states as it was. */
  function Merge(m: Maths, dp0: seq<Locator>, dp1: seq<Locator>, current: Rect, i: nat): (r: Result<seq<Locator>>)
    requires |dp1| == |dp0| && i <= |dp0|
    ensures r.Ok? ==> |r.value| == |dp0|
    ensures r.Ok? ==> forall s :: 0 <= s < |dp0| ==> r.value[s] == dp0[s] || r.value[s] == dp1[s]
    ensures r.Ok? ==> forall s :: 0 <= s < i ==> r.value[s] == dp0[s]
    decreases |dp0| - i
  {
    if i == |dp0| then Ok(dp0)
    else
      var replace :- Replaces(m, dp0[i], dp1[i], current);
      Merge(m, if replace then dp0[i := dp1[i]] else dp0, dp1, current, i + 1)
  }

  /** The body of the loop over the records: a record with a negative
      confidence (a page, block, paragraph or line row) is skipped; any
      other is relaxed along every edge into a fresh `dp1`, which is then
      merged into `dp0`. */
  function Step(m: Maths, u: Units, edges: seq<Edge>, state: Search, ocr: OcrText): (r: Result<Search>)
    requires ValidEdges(edges, Count(u)) && |state.slots| == Count(u) + 1
    ensures ocr.confidence < 0.0 ==> r == Ok(state)
    ensures r.Ok? ==> |r.value.slots| == Count(u) + 1
    ensures r.Ok? && state.slots[0] == Start() ==> r.value.slots[0] == Start()
    ensures r.Ok? ==> |state.cand| <= |r.value.cand| && forall i :: 0 <= i < |state.cand| ==> r.value.cand[i] == state.cand[i]
  {
    if ocr.confidence < 0.0 then Ok(state)
    else
      var (dp1, cand) :- Relax(m, u, edges, state.slots, ocr, 0, InitDp(Count(u)), state.cand);
      var slots :- Merge(m, state.slots, dp1, ocr.location, 0);
      Ok(Search(slots, cand))
  }

  /** The loop over the records `data[k..]`. */
  function Run(m: Maths, u: Units, edges: seq<Edge>, data: seq<OcrText>, k: nat, state: Search): (r: Result<Search>)
    requires ValidEdges(edges, Count(u)) && |state.slots| == Count(u) + 1 && k <= |data|
    ensures r.Ok? ==> |r.value.slots| == Count(u) + 1
    ensures r.Ok? ==> |state.cand| <= |r.value.cand| && forall i :: 0 <= i < |state.cand| ==> r.value.cand[i] == state.cand[i]
    decreases |data| - k
  {
    if k == |data| then Ok(state)
    else
      var next :- Step(m, u, edges, state, data[k]);
      Run(m, u, edges, data, k + 1, next)
  }

  /** The candidates of the dynamic program over `u`, most confident
      first. */
  function Align(m: Maths, u: Units, data: seq<OcrText>): (r: Result<seq<Locator>>) {
    var s :- Run(m, u, EdgesOf(u), data, 0, Search(InitDp(Count(u)), []));
    Ok(SortByConfidence(s.cand))
  }

  /** `_find_texts_word`. */
  function FindTextsWord(m: Maths, data: seq<OcrText>, text: string): (r: Result<seq<Locator>>) {
    Align(m, Words(Split(text, ' ')), data)
  }

  /** `_find_texts_char`. */
  function FindTextsChar(m: Maths, data: seq<OcrText>, text: string): (r: Result<seq<Locator>>) {
    Align(m, Chars(text), data)
  }
}
