# A verified model of the screen template matcher

The program captures the screen in a loop, pausing `COOLDOWN_SECONDS` (0.06 s)
after each pass, and looks for small template images (files such as
`wheat lvl 1@0.72.png`) in it. A keyboard listener starts and pauses matching
with Space and stops it with Esc.

As configured (`USE_ORB = True`), the active path is ORB feature matching.
Each template is scored by its good feature matches and the inliers of a
homography. The template-matching path is the fallback, taken when ORB is
switched off; only then does `load_templates` give each template the
`threshold` and `scaled` entries that path reads. It tries each template at
eleven scales with normalised cross-correlation and takes up to two peaks per
template and scale. It then merges overlapping detections with greedy
non-maximum suppression (NMS).
Only on this fallback path is the preview window's own rectangle clamped to
the frame and blacked out before matching; the ORB path ignores it.

This project models that logic in Dafny and proves what it promises:

- `boxes.dfy` (module `Boxes`): integer boxes `(x, y, w, h)` and their
  intersection-over-union. The IoU is exact over the reals and includes the
  `+ 1e-6` term of the denominator.
- `nms.dfy` (module `Nms`): `nms_boxes`. The greedy loop is a method proved
  equal to a recursive specification `GreedyNms`. The specification is proved
  correct for every score ranking, whatever order it gives tied scores.
- `topk.dfy` (module `TopK`): the top-K peak loop of `match_all_multiscale` on
  a two-dimensional array. The loop picks the first maximum, zeroes a window
  around it, and repeats. It is specified cell by cell.
- `template_cache.dfy` (module `TemplateCache`): `get_scaled_template` as a
  class whose `scaled` map is its cache. Resizing is a symbolic image
  constructor.
- `threshold_name.dfy` (module `ThresholdName`): `parse_threshold_from_name`,
  with the path stem, the split at the last `@` and a decimal parser. The
  parser is proved to accept exactly the written forms of decimals with an
  optional `+` or `-`, and conventionally named files round-trip.
- `toggle.dfy` (module `KeyToggle`): the `Toggle` class and its `on_press`.
- `orb_scoring.dfy` (module `OrbScoring`): the ratio test, the gate of ten
  good matches, the inlier count and the confidence formula.
- `preview_rect.dfy` (module `PreviewRect`): the clamp of the preview rectangle.
- `wrappers.dfy` (module `Wrappers`): `Option`.

## Model

| member | source | states |
|---|---|---|
| Boxes.Intersection | main.py:376-383 | the overlap area of two boxes is never negative |
| Boxes.EpsilonDenominator | main.py:386 | the IoU denominator, an integer plus 1e-6, is never zero, and is positive when the integer part is non-negative |
| Boxes.IoUSymmetric | main.py:376-386 | IoU does not depend on the order of its two boxes |
| Boxes.IntersectionBounded | main.py:376-385 | for boxes of non-negative size, the overlap is at most the area of either box |
| Boxes.IoUBounds | main.py:376-386 | for boxes of non-negative size, IoU lies in [0, 1) |
| Boxes.SelfOverlap | main.py:376-386 | a box of at least one pixel has IoU above 0.99 with itself |
| Boxes.ApartBoxesDiffer | main.py:386-387 | two boxes whose IoU is below a threshold of at most 0.99 are different boxes, if the first has at least one pixel |
| Nms.Survivors | main.py:376-387 | the remaining indices that survive one step are exactly those whose IoU with the kept box is below the threshold; none is added |
| Nms.GreedyNms | main.py:371-388 | the kept indices come from the ranking; nothing is kept exactly when there is nothing to rank; the first ranked index is always kept |
| Nms.SurvivorsKeepOrder | main.py:387 | filtering the remaining indices keeps their relative order |
| Nms.GreedyKeepsOrder | main.py:371-387 | kept indices appear in the order in which they were ranked |
| Nms.PrecedesCons | main.py:373-387 | a pair ordered in a list with a head prepended is either the head followed by a later element, or a pair ordered in the tail |
| Nms.PrependApart | main.py:373-387 | keeping a box whose IoU with every later kept box is below the threshold, ahead of a list already pairwise apart, gives a list pairwise apart |
| Nms.GreedyPairwiseApart | main.py:371-387 | any earlier-kept box and later-kept box overlap with IoU strictly below the threshold |
| Nms.GreedyKeepsApartBoth | main.py:371-387 | any two distinct kept boxes overlap below the threshold, in either order |
| Nms.GreedyDropsOnlyOverlaps | main.py:371-387 | every ranked index that is dropped overlaps, at or above the threshold, a kept index ranked ahead of it |
| Nms.GreedyDropsDuplicates | main.py:371-387 | at any threshold up to 0.99 (the one caller uses 0.3; the default is 0.5), no two kept entries hold the same box of at least one pixel |
| Nms.RankingPrecedes | main.py:369 | along a descending ranking, an earlier index has a score at least as high as a later one |
| Nms.RankedGreedyStartsWithBest | main.py:369-373 | on a descending ranking, the first kept index has the highest score of all |
| Nms.RankedGreedyIsOrdered | main.py:369-387 | on a descending ranking, the kept indices are distinct and their scores do not increase |
| Nms.RankedGreedyCovers | main.py:369-387 | on a descending ranking, every dropped box overlaps, at or above the threshold, a kept box ranked ahead of it |
| Nms.RankedGreedyCoversByScore | main.py:369-387 | on a descending ranking, every dropped box overlaps, at or above the threshold, a kept box scoring at least as high |
| Nms.GreedyStep | main.py:371-387 | one turn of the loop moves the head to the kept list and continues with its survivors; with one index left, the loop ends with that index kept |
| Nms.InsertKeepsRanking | main.py:369 | inserting the next index after every index scoring at least as high keeps a descending ranking of the indices seen so far |
| Nms.NmsGreedy | main.py:370-388 | the while loop keeps exactly what GreedyNms keeps for the given order |
| Nms.RankByScore | main.py:368-369 | the order is a permutation of all box indices with non-increasing scores |
| Nms.NmsBoxes | main.py:359-388 | indices are in range; the result is empty exactly for no boxes; the first kept box has the top score; kept indices are distinct with non-increasing scores; any two kept boxes overlap below the threshold; every dropped box overlaps, at or above the threshold, a kept box scoring at least as high |
| TopK.MaxLoc | main.py:346 | returns a maximum of the score map and its location, the first such location in row-major order |
| TopK.SuppressWindow | main.py:352-354 | zeroes the cells of the window around the peak (rows from y - th//3 up to but not including y + th//3, columns likewise with tw), clipped to the map, and leaves every other cell unchanged |
| TopK.CoveredAppend | main.py:352-354 | a cell is suppressed after one more peak exactly when it was suppressed before or lies in the new peak's window |
| TopK.IsPeakAppend | main.py:345-355 | a later peak does not change what made an earlier one a peak |
| TopK.TopKPeaks | main.py:342-355 | at most K peaks; each peak scores at least the threshold and is the first maximum of the map with the earlier peaks' windows zeroed; fewer than K peaks only when every remaining cell scores below the threshold |
| TopK.UncoveredPrefix | main.py:352-354 | a cell outside every window of a peak list is outside every window of any prefix of it |
| TopK.PeakScoresNonIncreasing | main.py:342-355 | for a non-negative threshold, peak scores do not increase from one peak to the next |
| TopK.NarrowWindowsCoverNothing | main.py:352-354 | a template narrower or shorter than three pixels suppresses no cell at all |
| TopK.NarrowTemplateRepeatsPeak | main.py:342-355 | for such a template, every peak repeats the first one |
| TopK.MatchAtScale | main.py:313-355 | a template larger than the screen is skipped; otherwise the peaks are the top two; every peak box lies inside the screen and scores at least the threshold; the best score never falls, bounds every cell, and is the old best or some cell |
| TemplateCache.RoundHalfEven | main.py:264-265 | round gives an integer within one half of its argument, and on an exact half the even one |
| TemplateCache.RoundHalfEvenUnique | main.py:264-265 | only one integer has both of those properties |
| TemplateCache.ScaledDim | main.py:264-265 | the scaled size is at least one pixel, within one half of size times scale whenever that product is at least one half, and exactly one below it |
| TemplateCache.ScaleTemplate | main.py:258-269 | within 1e-3 of scale 1.0, the original image and mask are used; otherwise the image is resized with area interpolation to the scaled size, and the mask, if any, to the same size with nearest-neighbour interpolation |
| TemplateCache.TemplateInfo.constructor | main.py:186-200 | a template entry starts with an empty scale cache |
| TemplateCache.TemplateInfo.GetScaledTemplate | main.py:253-271 | the pair returned is the one ScaleTemplate defines; a cached scale returns its stored pair and leaves the cache unchanged; a new scale adds exactly that entry; every cached entry stays consistent |
| TemplateCache.OnlyUnitScaleKeepsOriginal | main.py:118-121 | of the eleven TEMPLATE_SCALES, exactly 1.0 reuses the original image and mask; every other scale resizes the original to its own scaled size |
| TemplateCache.LookUpScales | main.py:310-312 | after the scale loop, every scale is cached, earlier entries are untouched and nothing else was added |
| ThresholdName.LastIndexOf | main.py:140 | the last position of a character, with none after it, or -1 when it does not occur |
| ThresholdName.AfterLast | main.py:140 | the last element of split: a suffix with no separator character in it, preceded by one if it is not the whole string |
| ThresholdName.FileName | main.py:137 | the final path component: a suffix with no path separator, preceded by one if it is not the whole path |
| ThresholdName.Stem | main.py:137 | the name without its last suffix: a prefix that is the whole name, or ends just before the last '.' when that dot is neither the first nor the last character |
| ThresholdName.FirstIndexOf | main.py:141 | the first position of a character, or the length when it does not occur |
| ThresholdName.FirstIndexOfAbsent | main.py:141 | the first position of a character not in a prefix is found after that prefix |
| ThresholdName.NoPointInDigits | main.py:141 | a digit string contains no decimal point |
| ThresholdName.ParseUnsignedRendered | main.py:141 | an unsigned decimal written out parses back to its value |
| ThresholdName.ParseSigned | main.py:141 | a leading sign applies to the unsigned number after it |
| ThresholdName.ParseUnsignedOnly | main.py:141 | text without a leading sign is parsed as an unsigned number |
| ThresholdName.MagnitudeUnsigned | main.py:141 | a written decimal without its sign is non-empty and starts with neither '-' nor '+' |
| ThresholdName.ParseRendered | main.py:141 | every well-formed decimal, written out with no sign, '+' or '-', parses back to its value |
| ThresholdName.ParseNumber | main.py:141 | empty text never parses, and only text starting with '-' can parse to a negative value |
| ThresholdName.ParseUnsignedNonNegative | main.py:141 | an unsigned decimal never parses to a negative value |
| ThresholdName.ReadUnsignedMagnitude | main.py:141 | text taken apart at its first point and written back is the same text |
| ThresholdName.ParsedUnsignedIsMagnitude | main.py:141 | text that parses as an unsigned decimal is the written form of a well-formed unsigned decimal with the parsed value |
| ThresholdName.SignedRead | main.py:141 | a '+' or '-' before an unsigned decimal gives a well-formed signed decimal written as that text, with the value negated for '-' |
| ThresholdName.ParsedIsRendered | main.py:141 | every text that parses is the written form of some well-formed decimal with the parsed value |
| ThresholdName.ParseNumberExactlyRendered | main.py:141 | text parses to v if and only if it is some well-formed decimal, with no sign, '+' or '-', written out, whose value is v |
| ThresholdName.LoadedThresholdInRange | main.py:165 | with MATCH_THRESHOLD (0.7) as the default, every template's threshold lies strictly between 0 and 1, and a stem without '@' gets MATCH_THRESHOLD itself |
| ThresholdName.ParseThresholdFromName | main.py:135-146 | the result is the default or lies strictly between 0 and 1; a non-default result is the number after the last '@' of the stem; such a number strictly between 0 and 1 is always taken |
| ThresholdName.AfterLastOfJoin | main.py:140 | splitting s + '@' + t, where t has no '@', gives t last |
| ThresholdName.FileNameOfPlainName | main.py:137 | a name without separators is its own final component |
| ThresholdName.StemOfJoin | main.py:137 | the stem of stem.ext, where ext has no dot, is stem |
| ThresholdName.RenderedCharacters | main.py:141 | a written decimal holds no separator and no '@' |
| ThresholdName.PlainJoin | main.py:137 | joining separator-free parts with a non-separator leaves no separator |
| ThresholdName.ThresholdFromConventionalName | main.py:135-146 | base@thr.ext, with base free of separators, yields thr whenever 0 < thr < 1 |
| ThresholdName.PointSeventyTwo | main.py:136 | the decimal 0.72 is well formed, is written "0.72" and has the value 0.72 |
| ThresholdName.WheatExample | main.py:136 | "wheat lvl 1@0.72.png" yields the threshold 0.72 |
| KeyToggle.Next | main.py:397-407 | a space, as a character or as the Space key, flips running; Esc sets stop; any other key changes nothing |
| KeyToggle.StopMeansEsc | main.py:397-407 | after a run of key presses, stop is set exactly when it was set before or Esc was among them |
| KeyToggle.RunningFollowsSpaces | main.py:397-404 | after a run of key presses, running has changed exactly when the number of spaces is odd |
| KeyToggle.Toggle.constructor | main.py:393-395 | a new toggle is neither running nor stopped |
| KeyToggle.Toggle.OnPress | main.py:397-407 | the flags change as Next says, and the listener is told to stop exactly on Esc |
| OrbScoring.GoodMatches | main.py:229-232 | there are never more good matches than neighbour pairs |
| OrbScoring.GoodMatchesMembers | main.py:229-232 | a match is good exactly when it is the nearest of a pair whose distance is below 0.8 of the runner-up's |
| OrbScoring.GoodMatchesAppend | main.py:229-232 | one more pair appends its nearest match exactly when it passes the ratio test |
| OrbScoring.FilterGoodMatches | main.py:229-232 | the loop collects exactly the good matches, in order |
| OrbScoring.CountInliers | main.py:241 | the inlier count is at most the size of the mask |
| OrbScoring.ConfidenceDenominator | main.py:243 | the denominator lies between 1 and 60 and never exceeds a positive keypoint count |
| OrbScoring.QuotientAtLeastOne | main.py:244 | for n >= 0 and d > 0, n / d is at least 1 exactly when n >= d |
| OrbScoring.Confidence | main.py:243-244 | the confidence lies in [0, 1]; it is 1 exactly when the inliers reach the denominator; below 1 it is inliers over the denominator |
| OrbScoring.ConfidenceMonotone | main.py:244 | more inliers never lower the confidence |
| OrbScoring.ScoreTemplate | main.py:224-244 | a template without descriptors is skipped with no best score; otherwise its best score is its number of good matches; it is detected exactly when there are at least ten good matches and a homography; the confidence, in [0, 1], is computed from the mask's inliers, or from all good matches when there is no mask |
| PreviewRect.ClampToFrame | main.py:515-520 | on a frame of at least one pixel, left and top lie inside the frame and right and bottom at most at its edge; a coordinate already in its range is unchanged; a negative left becomes 0, a left past the frame the last column, and a right past the frame the width |
| PreviewRect.ClampIdempotent | main.py:515-520 | clamping a clamped rectangle again changes nothing |
| PreviewRect.ClampIsNearest | main.py:516-520 | a clamped coordinate is the value of its range nearest to the original |

## Left out

- Floating point: scores, IoU, scales and thresholds are exact reals. The rounding of doubles (for example in `img.shape[1] * scale` before `round`) is not modelled.
- ThresholdName.ParseNumber: accepts only an optional sign, digits, and an optional point with digits. Python's `float` also accepts surrounding whitespace, exponents, underscores, `inf` and `nan`, and non-ASCII decimal digits such as full-width digits; such names fall back to the default here.
- ThresholdName.FileName: splits at '/' and '\\' only. Drive prefixes and the trailing separators that `pathlib` strips are not modelled; the caller passes a bare file name in any case (main.py:165).
- The OpenCV kernels are not modelled: `matchTemplate` (the score map is an input), `resize` (a symbolic constructor), `Canny`, ORB detection, FLANN k-nearest-neighbour search, `findHomography` (its outcome is an input), `perspectiveTransform`, and drawing.
- `load_templates` (file globbing, image decoding, alpha masks, ORB keypoints) is not part of this model. Only the empty scale cache it creates is, as the TemplateInfo constructor.
- `DesktopOverlay`, `main()` (screen capture, window handling, the HUD, the frame-rate loop) and the `keyboard.Listener` thread are not part of this model. The listener's concurrency with the main loop is not modelled; KeyToggle.Run applies the presses in order.
- Nms.NmsBoxes: requires one score per box, as at its only call site (main.py:527-529), where both lists are built from the same matches. With more scores than boxes the source raises IndexError at the indexing of main.py:376 and main.py:384. With fewer scores, `argsort` ranks only the first `len(scores)` boxes and the rest are silently ignored; with no scores at all it returns `[]`. Neither mismatched case is modelled.
- Nms.RankByScore: breaks ties by the lower index first. `argsort()[::-1]` fixes no tie order, so every property of NmsBoxes is proved through GreedyNms for any descending ranking, not just this one.
- TopK.PeakScoresNonIncreasing: needs a non-negative threshold. Zeroing a window can raise a negative cell, so a negative threshold could let a later peak score higher. Thresholds from file names are always strictly positive.
- TopK.TopKPeaks: the source's counter `k` is the number of peaks found, `|peaks|`. The score map is copied into a fresh array, as `r.copy()` does, so the method leaves `r` unchanged.
- OrbScoring.ScoreTemplate: models one template. The loop over all templates, the early return when the scene has no descriptors, and the projection of the template corners are not modelled. Neighbour lists with fewer than two entries, on which the source's unpacking would fail, are not modelled either.
- The memoizer, motion gate, ROI, stability history, batch scheduler and hybrid strategy have no code in this program and are not modelled.
