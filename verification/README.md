# untriseptium text location, in Dafny

untriseptium automates a GUI from screenshots. It takes a screenshot, runs
Tesseract on it, and searches the recognised words for a wanted text. The
result is a `TextLocator`: the text, a confidence, and the bounding box of
the words that spell it. The program can then click or move to the centre
of that box. This project models that path, as pure functions over
immutable data:

- **Geometry** (`untriseptium/util.py`): rectangles, the per-axis gap
  `_linear_distance`, centres, the growing box of `add_location`, and the
  `TextLocator` record.
- **Records** (`_Text`, `_Text._set`, the row loop of `_ocr_subregion`):
  reading Tesseract's TSV output into word records. This includes the
  header lookup, the integer and float conversions, the skipping of short
  rows, and the "Failed to parse line" error.
- **Recognition** (`ocr`): one pass over the whole image, then, when no
  record has text, a pass over horizontal strips. The strip height is an
  eighth of the image height and the step is half of that.
- **Scoring** (`_weighted_sum`, `_conf_ocr_text`, `_conf_next_word`,
  `_conf_old_word`, `_new_text_locator`): how a record's confidence is
  matched against a wanted text and penalised by distance.
- **Alignment** and **Chains** (`_find_texts_word`, `_find_texts_char`):
  the two forward dynamic programs, and what their candidates are made of.
- **Paragraphs** (`_find_texts_para`, `_find_texts_para_partial`): the
  paragraph strategies. `find_texts` uses `_find_texts_para_partial`.
- **Ranking**: the stable sort by descending confidence that ends every
  strategy.
- **Facade** (`untriseptium/__init__.py`): the session cache, `find_text`
  with and without a location hint, `_filter_locator`, `click` and `move`.

Python exceptions become `Err` values of one `Result` type:

- `ZeroDivision`, `NoneAttribute`, `UnboundLocal(name)`, `IndexOutOfRange`
  and `NotSubscriptable`;
- `ZeroRangeStep`, for `range` with a zero step;
- `ParseFailure(row)`, for the exception `_ocr_subregion` raises.

The world outside the program is passed in as parameters:

- Tesseract itself is a function from an image and an optional crop box to
  TSV text.
- The screenshot the frontend would take is an argument of each operation
  that may capture one.
- `math.hypot` and `math.exp` are an abstract pair of functions. A
  `Sound` predicate states the facts the proofs use about them: both are
  never negative, and exp of a non-positive number lies
  in (0, 1]. A second predicate, `ExpIncreasing`, adds that exp does not
  decrease on the non-positive numbers; only the monotonicity lemmas
  assume it.

Confidences are real numbers. Coordinates are unbounded integers.

Some of the source's behaviour looks unintended. The model keeps each of
these exactly as written:

- `_weighted_sum` computes `(v1 * w1 + v2 + w2) / (w1 + w2)`, not a
  weighted mean. `Scoring.WeightedSumIsNotTheMean` exhibits the difference.
- `_ocr_subregion` always resets the offset to `(0, 0)`. Strip records
  therefore keep coordinates relative to the strip.
- `_find_texts_para_partial` raises `UnboundLocalError` on
  `i_para_start` when the first record is a word and not a page, block,
  paragraph or line row.
- Under the same condition, `_find_texts_para` raises `AttributeError` on
  `None`.
- For an image less than 16 pixels high, the strip step is 0, so the retry
  in `ocr` raises on `range`.

## Model

| member | source | states |
|---|---|---|
| Geometry.LinearDistance | untriseptium/util.py:4-13 | the gap between two intervals is never negative, and it is zero whenever an end of one lies inside the other |
| Geometry.LinearDistanceIsGap | untriseptium/util.py:4-13 | for well-ordered intervals, the four-case minimum equals the plain gap between the intervals |
| Geometry.LinearDistanceZeroIffOverlap | untriseptium/util.py:4-13 | the gap is zero exactly when the intervals overlap, and positive exactly when one ends before the other begins |
| Geometry.LinearDistanceSymmetric | untriseptium/util.py:4-13 | the gap does not depend on the order of the two intervals |
| Geometry.Center | untriseptium/util.py:26-30 | the centre is equally far from both edges on each axis |
| Geometry.CenterInside | untriseptium/util.py:26-30 | the centre of a well-formed box lies inside it |
| Geometry.DistanceZeroIffIntersect | untriseptium/util.py:38-55 | the two per-axis gaps used by `distance_at_point` are both zero exactly when the boxes intersect, and they are symmetric |
| Geometry.Union | untriseptium/util.py:98-105 | the grown box contains both boxes, stays well-formed, and is the least box containing both |
| Geometry.FreshLocator | untriseptium/util.py:90-93 | a new `TextLocator` has empty text, confidence 0 and no location |
| Geometry.AddLocation | untriseptium/util.py:98-105 | with no location, the new box is taken; otherwise the result contains both the old box and the new one |
| Geometry.AddLocationIsLeast | untriseptium/util.py:102-105 | any box containing the old box and the new one contains the result |
| Geometry.AddContainedIsIdentity | untriseptium/util.py:102-105 | adding a box already inside the location leaves the location unchanged |
| Geometry.AddTo | untriseptium/util.py:98-105 | adding a location changes neither the text nor the confidence |
| Text.Split | untriseptium/backend/tesseract.py:136-137 | `str.split` with one separator gives at least one part, and no part contains the separator |
| Text.JoinSplit | untriseptium/backend/tesseract.py:136-137 | joining the parts with the separator gives back the input |
| Text.SplitJoin | untriseptium/backend/tesseract.py:136-137 | splitting a join of separator-free parts gives back the parts |
| Text.Strip | untriseptium/backend/tesseract.py:58-59 | the stripped text neither starts nor ends with white space, and it is no longer than the input |
| Text.StripIdempotent | untriseptium/backend/tesseract.py:58-59 | stripping twice is the same as stripping once |
| Text.StripKeepsTrimmed | untriseptium/backend/tesseract.py:58-59 | a text without surrounding white space is its own strip |
| Text.ParseIntToString | untriseptium/backend/tesseract.py:36-55 | `int` and `float` read back every integer numeral: the round trip from an integer |
| Text.ParseFloatExtendsParseInt | untriseptium/backend/tesseract.py:56-57 | every field `int` accepts, `float` accepts too, with the same value |
| EditDistance.LevenshteinAtMostMaxLen | untriseptium/backend/tesseract.py:167-168 | the edit distance is at most the longer length, so `max_length - distance` is never negative |
| EditDistance.LevenshteinAtLeastLengthGap | untriseptium/backend/tesseract.py:167-168 | the edit distance is at least the difference of the lengths |
| EditDistance.LevenshteinZeroIffEqual | untriseptium/backend/tesseract.py:167 | the edit distance is zero exactly when the texts are equal |
| Records.ColumnOf | untriseptium/backend/tesseract.py:36-59 | a recognised header name belongs to exactly the column it names |
| Records.ColumnOfName | untriseptium/backend/tesseract.py:36-59 | every column's header name is recognised as that column |
| Records.Convert | untriseptium/backend/tesseract.py:36-59 | a converted field has the column's type: an integer for the number columns, a real for `conf`, a string for `text` |
| Records.Store | untriseptium/backend/tesseract.py:36-59 | storing a value sets that column, with `left` and `top` shifted by the offset, and no other column changes |
| Records.ReadCell | untriseptium/backend/tesseract.py:35-59 | a field under an unknown header is ignored; a known one fails exactly when its conversion fails, and otherwise gives the converted value |
| Records.Cells | untriseptium/backend/tesseract.py:35 | each field is read under the header at the same position |
| Records.Set | untriseptium/backend/tesseract.py:34-61 | the location is the box from `left` and `top` to `left + width` and `top + height`, and a row longer than the header fails |
| Records.SetColumn | untriseptium/backend/tesseract.py:34-61 | each column ends up holding the conversion of the last field under its name, or the blank value if there is none |
| Records.SetFailsIff | untriseptium/backend/tesseract.py:34-61 | reading a row fails exactly when the row is longer than the header or some field fails to convert under its header |
| Records.SetIgnoresUnknownColumn | untriseptium/backend/tesseract.py:36-59 | a field under a header name `_set` does not know has no effect |
| Records.LastField | untriseptium/backend/tesseract.py:35-59 | a value found is a field under that name, and none is found only when no header has the name |
| Records.KeptRows | untriseptium/backend/tesseract.py:141-142 | a row is kept exactly when it is at least as long as the header |
| Records.KeptRowsAppend | untriseptium/backend/tesseract.py:136-142 | rows are kept in their input order: filtering two runs of rows one after the other is filtering each run |
| Records.RowLoopSpec | untriseptium/backend/tesseract.py:136-150 | the loop succeeds exactly when every kept row reads. It then returns the readings in row order. Otherwise it fails on the first kept row that does not read |
| Records.ParseTsvSpec | untriseptium/backend/tesseract.py:134-150 | for TSV text, the records are the readings of every row at least as long as the header, in order, or the error names the first such row that fails |
| Records.ParseTsvShifts | untriseptium/backend/tesseract.py:134-150 | read with another offset, a TSV text with `left` and `top` columns gives as many records, each moved by that offset |
| Records.SetShifts | untriseptium/backend/tesseract.py:48-51 | whether a row reads does not depend on the offset, and a `left` or `top` field it holds is shifted by exactly the offset |
| Recognition.OcrSubregion | untriseptium/backend/tesseract.py:126-150 | one Tesseract pass succeeds exactly when every kept row reads, and its records are then exactly the kept rows read with offset (0, 0), whatever the crop box |
| Recognition.StripRecordsUnshifted | untriseptium/backend/tesseract.py:126-130 | the crop box's corner is assigned as offset and then discarded: read with the corner as offset, the same rows would lie that far right and down, so a crop box not at the origin, such as any strip below the top, yields records other than the offset reading |
| Recognition.HasValidData | untriseptium/backend/tesseract.py:97-101 | the data is valid exactly when some record has text |
| Recognition.RangeSpec | untriseptium/backend/tesseract.py:159 | `range(start, stop, step)` gives `start + k * step` for each k, each below `stop`, and stops at the first value that reaches `stop` |
| Recognition.StripsSpec | untriseptium/backend/tesseract.py:159-162 | the strip loop succeeds exactly when every strip parses, and its result is then exactly the strips' records concatenated from the top strip down |
| Recognition.StripHeight | untriseptium/backend/tesseract.py:158 | the strip height is the image height divided by 8, rounded down |
| Recognition.StripStep | untriseptium/backend/tesseract.py:158-159 | the step is half the strip height, rounded down, and it is positive exactly when the image is at least 16 pixels high |
| Recognition.Ocr | untriseptium/backend/tesseract.py:152-164 | an error of the first pass is returned, and so is a first pass with text; no retry happens then |
| Recognition.OcrKeepsFirstPass | untriseptium/backend/tesseract.py:153-164 | the first pass's records always come first in the result |
| Recognition.OcrTooLow | untriseptium/backend/tesseract.py:157-159 | without text in the first pass and with an image under 16 pixels high, the retry fails on a zero `range` step |
| Recognition.OcrRetrySurfacesStrips | untriseptium/backend/tesseract.py:157-162 | when the retry runs and every strip parses, each record of each strip is in the result |
| Recognition.OcrRetryIsStrips | untriseptium/backend/tesseract.py:152-164 | when the first pass has no text and the retry succeeds, the image is at least 16 pixels high and the result is the first pass followed by every strip's records from the top down, and nothing else |
| Scoring.WeightedSum | untriseptium/backend/tesseract.py:7-8 | division by zero happens exactly when both weights are zero |
| Scoring.WeightedSumOfFirstWord | untriseptium/backend/tesseract.py:7-8 | the formula as written scores a paragraph's first word as one plus its confidence over its length, which is at least 1; a weighted mean would give the confidence itself |
| Scoring.WeightedSumIsNotTheMean | untriseptium/backend/tesseract.py:7-8 | one input on which the formula as written and a weighted mean differ |
| Scoring.ConfOcrText | untriseptium/backend/tesseract.py:166-171 | division by zero happens exactly when both texts are empty, and an exact match scores the record's own confidence |
| Scoring.BlendBetween | untriseptium/backend/tesseract.py:170-171 | the score is a mean of the confidence and the unconfidence term, so it lies between them |
| Scoring.ConfOcrTextBounds | untriseptium/backend/tesseract.py:166-171 | the score lies between the record's confidence and `(1 - conf) * 0.4`, and so in [0, 1] for a confidence in [0, 1] |
| Scoring.UnconfidentWordAlwaysMatches | untriseptium/backend/tesseract.py:115-119 | a record of confidence 0 scores 0.4 against any text it differs from in every position, which passes the 0.2 threshold |
| Scoring.Penalty | untriseptium/backend/tesseract.py:71-73 | no penalty within the size; beyond it, division by zero exactly when the size is zero; otherwise a factor in (0, 1] |
| Scoring.Scaled | untriseptium/backend/tesseract.py:71-73 | an error of the penalty is propagated, and no penalty keeps the confidence |
| Scoring.ScaledLowers | untriseptium/backend/tesseract.py:71-73 | a penalty lowers the confidence but keeps a positive one positive |
| Scoring.ConfNextWord | untriseptium/backend/tesseract.py:64-74 | without a location, the result is the product of the two confidences; the only error is a division by zero |
| Scoring.ConfNextWordFar | untriseptium/backend/tesseract.py:64-74 | beyond one character size, a zero size divides by zero, and otherwise the product is multiplied by `exp(-ex * ex)` with `ex` the excess gap in character sizes |
| Scoring.PenaltyMonotone | untriseptium/backend/tesseract.py:71-73 | for a fixed positive size, a larger gap never gives a larger factor |
| Scoring.ConfNextWordFartherLower | untriseptium/backend/tesseract.py:64-74 | of two records at the same character size, the farther one never extends the state with more confidence |
| Scoring.ConfNextWordNear | untriseptium/backend/tesseract.py:71 | a record within one character size of the location is not penalised |
| Scoring.ConfNextWordAtMostUndecayed | untriseptium/backend/tesseract.py:64-74 | the result lies between 0 and the product, and is positive when the product is |
| Scoring.ConfOldWord | untriseptium/backend/tesseract.py:85-94 | a state without a location or without text keeps its confidence; the only error is a division by zero |
| Scoring.ConfOldWordNear | untriseptium/backend/tesseract.py:91 | a record within the state's diagonal is not penalised |
| Scoring.ConfOldWordAtMostStored | untriseptium/backend/tesseract.py:85-94 | the penalised confidence lies between 0 and the stored one, and is positive when that is |
| Scoring.SpanBox | untriseptium/util.py:98-105 | a run of records has a box exactly when it is not empty |
| Scoring.SpanBoxCovers | untriseptium/util.py:98-105 | the box of a run contains every record's box |
| Scoring.SpanBoxIsLeast | untriseptium/util.py:98-105 | any box containing every record's box contains the run's box |
| Scoring.SpanTextIsJoin | untriseptium/backend/tesseract.py:79 | when the first word has text, the text of a run is its words joined by single spaces |
| Scoring.NewTextLocator | untriseptium/backend/tesseract.py:77-82 | the extension appends the word after a space (or takes it when the text is empty), carries the given confidence, and has a box containing the old box and the word's |
| Alignment.WordEdges | untriseptium/backend/tesseract.py:193-203 | word i of the text leads from slot i to slot i + 1 |
| Alignment.SpansFrom | untriseptium/backend/tesseract.py:229 | the inner loop visits the ends `b` to `n` in order from one start |
| Alignment.SpansAfter | untriseptium/backend/tesseract.py:228-229 | every edge of the outer loop from `a` on starts at or after `a`, moves forward and stays within the text |
| Alignment.CharEdgesComplete | untriseptium/backend/tesseract.py:228-230 | the char program tries every substring `text[x:y]` |
| Alignment.EdgesOf | untriseptium/backend/tesseract.py:193-230 | every edge moves forward and stays within the slots |
| Alignment.InitDp | untriseptium/backend/tesseract.py:179-183 | slot 0 is certain and every other slot is a fresh locator |
| Alignment.Relax | untriseptium/backend/tesseract.py:193-203 | relaxing leaves slot 0 alone and only appends candidates |
| Alignment.Merge | untriseptium/backend/tesseract.py:205-209 | each merged slot is the old state or the new one, never a mix, and slots before the start are untouched |
| Alignment.Step | untriseptium/backend/tesseract.py:188-209 | a record with negative confidence changes nothing; otherwise slot 0 stays certain and candidates are only appended |
| Alignment.Run | untriseptium/backend/tesseract.py:188-209 | the loop over records only appends candidates |
| Chains.SpellsIsChain | untriseptium/backend/tesseract.py:193-203 | the recursive and the index-wise definitions of a chain of records along the edges agree, in both directions |
| Chains.LinkedIncreasing | untriseptium/backend/tesseract.py:188-203 | the records of a chain are strictly increasing in position: each word comes from a later record |
| Chains.TracedNext | untriseptium/backend/tesseract.py:198-201 | extending a traced state by an accepted record traces the new slot, one record later |
| Chains.ExtensionReached | untriseptium/backend/tesseract.py:198-201 | an extension with positive confidence is the span of a chain ending at the new slot, with its confidence in (0, 1] |
| Chains.StoreReached | untriseptium/backend/tesseract.py:199-201 | the locator stored at the slot is the span of a chain reaching that slot |
| Chains.StoreKeeps | untriseptium/backend/tesseract.py:199-203 | a store keeps every slot and every candidate the span of a chain, and a candidate always reaches the last slot |
| Chains.MergeChoice | untriseptium/backend/tesseract.py:205-209 | slot s of the merge is the new state exactly when it beats the old one's penalised confidence |
| Chains.MergeKeepsBetter | untriseptium/backend/tesseract.py:205-209 | a merged slot is at least as confident as the new state, and without a penalty it is the more confident of the two |
| Chains.RelaxKeeps | untriseptium/backend/tesseract.py:193-203 | relaxing a record keeps every slot and every candidate the span of a chain over the records read so far |
| Chains.StepKeeps | untriseptium/backend/tesseract.py:188-209 | one record keeps the slots and the candidates the spans of chains |
| Chains.RunKeeps | untriseptium/backend/tesseract.py:188-209 | after the loop, every candidate is the span of a chain spelling the whole text |
| Chains.AlignSound | untriseptium/backend/tesseract.py:176-211 | the candidates come out most confident first, and each is the span of a chain spelling the whole text |
| Chains.WordSpells | untriseptium/backend/tesseract.py:193-203 | a word chain uses word j as its j-th step |
| Chains.FindTextsWordSound | untriseptium/backend/tesseract.py:176-211 | every word candidate has a box and a confidence in (0, 1]. Its text and box are those of records at increasing positions matching the words in order |
| Chains.FindTextsCharSound | untriseptium/backend/tesseract.py:213-249 | every char candidate has a box and a confidence in (0, 1]. Its text and box are those of records at increasing positions matching consecutive substrings |
| Chains.RunFindsExactWord | untriseptium/backend/tesseract.py:188-203 | a record that spells a one-word text with confidence at the threshold or above makes the loop produce a candidate |
| Chains.FindTextsWordFindsExact | untriseptium/backend/tesseract.py:176-211 | a one-word text that some record spells with enough confidence is found |
| Paragraphs.Judge | untriseptium/backend/tesseract.py:254-260 | a paragraph is kept exactly when its score passes the threshold, and it is kept with that score; division by zero only when both texts are empty |
| Paragraphs.KeptHolds | untriseptium/backend/tesseract.py:254-260 | the kept list holds the judged paragraph and nothing else |
| Paragraphs.ParagraphSpans | untriseptium/backend/tesseract.py:271-275 | a paragraph's text is its words joined by spaces and its box is the box of its words |
| Paragraphs.ParaFirstWord | untriseptium/backend/tesseract.py:271-273 | a paragraph's first word scores one plus confidence over length, so at least 1 |
| Paragraphs.ParaLoopSpec | untriseptium/backend/tesseract.py:262-277 | from inside a paragraph, the loop's result holds every candidate a later closed paragraph yields, and nothing else new |
| Paragraphs.FindTextsParaNeedsSentinel | untriseptium/backend/tesseract.py:262-273 | empty data, or data whose first record is a word, fails on `None` |
| Paragraphs.FindTextsParaSpec | untriseptium/backend/tesseract.py:251-279 | on success, the first record is a sentinel, the result is most confident first, and a locator is in it exactly when some paragraph yields it |
| Paragraphs.AccumulateSpans | untriseptium/backend/tesseract.py:293-301 | the inner accumulation builds the joined text and the box of the run |
| Paragraphs.AccumulateBetween | untriseptium/backend/tesseract.py:293-296 | for confidences in [0, 1], the weighted total lies between 0 and the total length |
| Paragraphs.RunConfBetween | untriseptium/backend/tesseract.py:293-302 | for confidences in [0, 1], a run's mean confidence lies in [0, 1] |
| Paragraphs.RunConfSingle | untriseptium/backend/tesseract.py:302 | a run of one word with text has that word's confidence |
| Paragraphs.Starts | untriseptium/backend/tesseract.py:289-310 | the loop over start positions only appends candidates |
| Paragraphs.StartsSpec | untriseptium/backend/tesseract.py:289-310 | for one end, the result holds the candidate of every start that passes, and nothing else new |
| Paragraphs.Partial | untriseptium/backend/tesseract.py:284-310 | the loop over end positions only appends candidates |
| Paragraphs.PartialSpec | untriseptium/backend/tesseract.py:284-310 | from inside a paragraph, the result holds the candidate of every later run of words that passes, and nothing else new |
| Paragraphs.FindTextsParaPartialNeedsSentinel | untriseptium/backend/tesseract.py:284-289 | data whose first record is a word fails with an unbound `i_para_start` |
| Paragraphs.FindTextsParaPartialSpec | untriseptium/backend/tesseract.py:281-312 | the result is most confident first, and a locator is in it exactly when some run of consecutive words within one paragraph yields it |
| Paragraphs.RunCandidate | untriseptium/backend/tesseract.py:289-310 | a run's candidate has the run's joined text and box, the run's score against the text, and a score at the threshold or above |
| Ranking.Insert | untriseptium/backend/tesseract.py:211 | inserting adds exactly one element and loses none |
| Ranking.SortDescending | untriseptium/backend/tesseract.py:211 | the sorted candidates are in descending confidence |
| Ranking.SortPermutes | untriseptium/backend/tesseract.py:211 | the sort is a permutation of the candidates |
| Ranking.SortKeepsMembers | untriseptium/backend/tesseract.py:211 | a locator is in the sorted list exactly when it is a candidate |
| Ranking.SortStable | untriseptium/backend/tesseract.py:211 | candidates of equal confidence keep their order, as Python's sort is stable |
| Ranking.FirstBest | untriseptium/__init__.py:72-73 | the index of the first candidate of greatest confidence |
| Ranking.SortHeadIsFirstBest | untriseptium/__init__.py:72-73 | the head of the sorted list is the first of the most confident candidates |
| Facade.Cleared | untriseptium/__init__.py:37-39 | clearing leaves neither a screenshot nor OCR data |
| Facade.Capture | untriseptium/__init__.py:41-43 | capturing stores a screenshot and drops the OCR data |
| Facade.RunOcr | untriseptium/__init__.py:45-48 | after `ocr` there is a screenshot, and on success the session holds exactly the data returned |
| Facade.Cached | untriseptium/__init__.py:50-52 | on success, the session holds exactly the data used |
| Facade.Select | untriseptium/__init__.py:56-73 | without a hint, the selection succeeds exactly when there are candidates; it fails on an index when there are none, and any result is a candidate |
| Facade.Point | untriseptium/__init__.py:75-82 | only a pair of coordinates can be clicked: anything else is not subscriptable, and fewer than two coordinates are out of range |
| Facade.FilterLocator | untriseptium/__init__.py:21-26 | anything with a centre becomes coordinates, and a locator without a location or coordinates is left as it is |
| Facade.FilterLocatorIdempotent | untriseptium/__init__.py:21-26 | filtering twice is the same as filtering once |
| Facade.ClosestIsCandidate | untriseptium/__init__.py:61-68 | the chosen locator is one of the candidates |
| Facade.ClosestNeedsBoxes | untriseptium/__init__.py:62-63 | a candidate without a location makes the hint loop fail on `None` |
| Facade.ClosestIsFirstNearest | untriseptium/__init__.py:61-68 | with located candidates, the loop picks the first candidate whose centre is nearest to the hint point |
| Facade.FirstNearestUnique | untriseptium/__init__.py:61-68 | there is only one first nearest candidate |
| Facade.CandidatesLocated | untriseptium/backend/tesseract.py:289-310 | every candidate of `find_texts` has a location |
| Facade.SessionCoherent | untriseptium/__init__.py:37-82 | OCR data is only ever held together with the screenshot it came from |
| Facade.FindTextUsesCache | untriseptium/__init__.py:50-52 | with records as values, non-empty cached data makes `find_text` capture nothing, run no OCR and leave the session unchanged, so its answer does not depend on the screenshot or on Tesseract |
| Facade.FindTextReads | untriseptium/__init__.py:45-52 | without cached data, `find_text` captures only when there is no screenshot, then runs OCR and caches its data or fails with its error |
| Facade.FindTextFindsRun | untriseptium/__init__.py:50-73 | what `find_text` returns is a candidate of some run of words in the cached data |
| Facade.FindTextMostConfident | untriseptium/__init__.py:72-73 | without a hint, `find_text` returns the first of the most confident candidates |
| Facade.SelectNearest | untriseptium/__init__.py:56-70 | with a hint, the selection is the first candidate nearest to the hint scaled to the screenshot |
| Facade.FindTextNearest | untriseptium/__init__.py:50-70 | with a hint, `find_text` returns the first candidate whose centre is nearest to the hint point on the screenshot |
| Facade.FindTextShortHint | untriseptium/__init__.py:56-59 | a hint of one number fails on an index |
| Facade.ClickCentre | untriseptium/__init__.py:75-82 | `click` clears the session and clicks the centre of a box or of a located locator; a locator without a location is not subscriptable; `move` keeps the session and moves to the same point |

## Left out

- Pixel cropping (`image.crop`) is not modelled: Tesseract is a parameter that receives the image and the crop box together.
- The `pytesseract` call itself, the `lang` setting and `preset` (`tesseract.py:121-124`) are left out. Both only choose what the external program recognises.
- The `OMP_THREAD_LIMIT` environment variable set in `BackendTesseract.__init__` is left out: it is process environment.
- The frontend (`untriseptium/frontend/pyautogui.py`) is not part of this model. Screenshots are arguments, and clicks and moves return the point instead of acting on the screen.
- `Locator.set_context`, `Locator.click` and `Locator.move` (`util.py:76-83`) are left out. They only forward to the session's `click` and `move`, which are modelled.
- Geometry.AddLocation: `add_location` mutates the box in place, and the first record's `Location` is shared by reference. In the paragraph strategies that record's own box grows as later words are added. The model treats boxes as values, so that aliasing is not reproduced.
- Records.Set: any exception in `_set` becomes the same `ParseFailure` of the row. The model does not tell an `IndexError` from a `ValueError`.
- Text.ParseFloat: exponents, `inf`, `nan` and underscores in numerals are not accepted, and neither are underscores in `int`. Tesseract's TSV output does not use them.
- `__str__` and `str_verbal` (debug text) are left out.
- Chains.FindTextsCharSound: only soundness is proved for the char program. The analogue of Chains.FindTextsWordFindsExact is not stated for substrings.
- Paragraphs.RunConfBetween: stated only for record confidences in [0, 1]. Tesseract's word confidences lie there, and its non-word rows are negative, so they never enter a run.
- Chains.AlignSound: stated under `Calibrated` data, where every record's confidence is at most 1, and under `Sound` hypot and exp.
- Floating point is modelled as exact real arithmetic. Rounding in `/`, `hypot` and `exp` is not represented.
- `math.hypot` and `math.exp` are abstract functions. Only the properties listed in `Sound` are assumed about them, and, for Scoring.PenaltyMonotone and Scoring.ConfNextWordFartherLower, that exp does not decrease on the non-positive numbers (`ExpIncreasing`).
- Facade.FindTextUsesCache: holds for the model's value boxes only. In the source, `add_location` widens the first record's shared `Location` in place, so the cached records themselves change during a search. A second `find_text` can then return a larger box than the first: for the records `a` at (0, 0, 1, 1) and `b` at (10, 0, 11, 1) after a sentinel row, searching `a` twice can give (0, 0, 11, 1) the second time.
- Python's object identity, `deepcopy` and in-place list updates are modelled as values.
