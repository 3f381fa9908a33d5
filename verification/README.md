# Border removal for extracted manga panels

The tool cuts comic pages into panels. Each panel then goes through a
post-processor, `remove_border`, which trims the panel's drawn frame line.
`remove_border` works in these steps:

1. Pad the panel with 15 white pixels.
2. Find the largest dark contour and its bounding rectangle `(x, y, w, h)`.
3. Skeletonise that contour's outline.
4. On each of the four sides, use `_find_best_border_line` to pick the row or
   column of the skeleton that most likely is the frame. The search runs from
   the inside out. With `depth = int(dim * search_zone_ratio)`, the top and
   left sides scan `depth + 1` lines, from `depth` down to 0. The bottom and
   right sides scan `depth` lines, from `dim - depth` up to `dim - 1`, so
   they scan nothing when the depth is 0.
5. Crop the padded panel `padding` pixels inside those four lines.

Small panels, panels without a contour, degenerate boxes and crops under
10 pixels are handed back unchanged.

The model has two modules:

- `LineScorer` (`line_scorer.dfy`) models `_find_best_border_line`.
  - It is a loop (`FindBestBorderLine`) that keeps a running best with `>=`.
  - The loop is proved equal to a specification function, `BestLine`. That
    function is the last arg-max of the candidates' scores in visiting order.
  - Each candidate's score is its row or column count of non-zero cells
    (`count`), weighted by `1 + progress / span`.
  - Within one scan the span is fixed. So candidates are compared exactly by
    `count * (span + progress)`. A lemma proves this orders them the same way
    as the real-valued weighted score does.
- `BorderRemover` (`border_remover.dfy`) models the rest of `remove_border`
  as functions:
  - the size guard, the padding and the slicing;
  - the four inside-out scan ranges and the four scorer calls;
  - the crop box arithmetic and its two guards.

  The OpenCV stages are an input: a `Detection` holds either no contour, or
  the bounding rectangle and the skeleton of the padded panel. A missing panel
  (`None`) is passed through, as the source does.

## Model

| member | source | states |
|---|---|---|
| LineScorer.FindBestBorderLine | app.py:50-75 | The loop returns exactly `BestLine`: `start` when the span or the range is empty, otherwise the last-visited candidate of maximal score. The proof uses a running-maximum invariant over the visited prefix. It starts from `max_score = -1`, which the first candidate always beats. |
| LineScorer.CandidateScore | app.py:62-70 | The score computed for the k-th candidate is the k-th entry of `Scores`. That score is the candidate's non-zero count combined with its progress from `start` over the span. |
| LineScorer.ScoreOfCandidate | app.py:61-70 | The k-th visited index is a row or column of the mask, and its entry in `Scores` is its combined score. |
| LineScorer.RunningMaxStep | app.py:55-73 | The running maximum starts at -1. Replacing it exactly when the next score is `>=` it turns the last arg-max of the first k scores into the last arg-max of the first k + 1. |
| LineScorer.RunningMaxEndsOnBestLine | app.py:61-75 | A running maximum carried over the whole range ends on the index `BestLine` returns. |
| LineScorer.BestLine | app.py:55-75 | The result is `start` when the span is 0 or the range is empty. Otherwise it is an index of the range and a valid row (axis 1) or column (any other axis) of the mask. |
| LineScorer.BestLineCharacterization | app.py:61-73 | A candidate is returned if and only if no candidate scores higher and every later-visited candidate scores strictly lower. So ties go to the later (more exterior) index. |
| LineScorer.BestLineIsMaximal | app.py:55-73 | The returned index lies in the range and scores at least as much as every candidate in the range. |
| LineScorer.BestLineIgnoresMaskOnZeroSpan | app.py:57-59 | With a zero span the result is `start`, whatever the mask and axis. |
| LineScorer.LastArgMax | app.py:61-73 | Among the first `n` scores, the position returned holds the maximum, and every later position holds strictly less. |
| LineScorer.LastArgMaxUnique | app.py:72-73 | Any position that is maximal with all later positions strictly smaller is the one `LastArgMax` returns. |
| LineScorer.Scores | app.py:61-70 | One score per candidate, in the range's visiting order. The k-th score is the score of the k-th index. |
| LineScorer.Span | app.py:57 | `total_span` is `stop - start` or `start - stop`, whichever is non-negative. It is 0 exactly when `start == stop`. |
| LineScorer.Len | app.py:61 | The number of indices a step ±1 `range` produces is never more than the span, and equals the span when the range is nonempty. |
| LineScorer.Elem | app.py:61 | The k-th index the range produces lies `k` away from `start`, so its `progress` is its visit position. |
| LineScorer.InRange | app.py:61 | Every index of the range is less than the span away from `start`, so its position weight is below 1. |
| LineScorer.LineCount | app.py:62-65 | The continuity score of row `i` (axis 1) or column `i` (otherwise) is at most the line's length. It is 0 exactly when every cell of that row or column is zero. |
| LineScorer.CombinedScore | app.py:67-70 | The exact score `count * (span + progress)` is at least `count * span`. For a positive span it is 0 exactly when the count is 0. |
| LineScorer.PositionWeight | app.py:67-68 | `progress / total_span` times the span gives back the progress. It is non-negative, and below 1 when the progress is below the span. |
| LineScorer.WeightedScore | app.py:67-70 | `continuity_score * (1 + position_weight)` is at least the count, and equals the count at the first candidate (progress 0). |
| LineScorer.Score | app.py:61-70 | A candidate's score is 0 exactly when its line has no non-zero cell. Otherwise it is at least the span. |
| LineScorer.CountNonzero | app.py:62-65 | The count of non-zero cells is at most the line length. It is 0 exactly when all cells are zero, and it equals the length exactly when none are. |
| LineScorer.CountNonzeroIsCardinality | app.py:62-65 | The count equals the size of the set of non-zero positions. |
| LineScorer.Column | app.py:64-65 | `mask[:, i]` has one entry per row, and entry `j` is `mask[j][i]`. |
| LineScorer.CombinedScoreIsScaledWeightedScore | app.py:67-70 | `count * (span + progress)` equals `count * (1 + progress / span)` times `span`. |
| LineScorer.CombinedScoreOrder | app.py:67-72 | Within one scan, comparing exact scores with `<=` agrees with comparing the weighted scores, in both directions. |
| LineScorer.PositionWeightMonotone | app.py:67-68 | For a nonempty range the span is positive. The position weight is 0 at the first candidate, never decreases along the range, and stays in `[0, 1)`. |
| LineScorer.InRangeIffElem | app.py:61 | An index is in the range if and only if the iteration visits it at some position below `Len`. |
| BorderRemover.SearchDepth | app.py:115-118 | `int(dim * ratio)` is the floor of the product. For a positive dimension it is less than the dimension. |
| BorderRemover.DefaultSearchDepth | app.py:78-80 | The default ratio 0.25 and padding 5 meet `RemoveBorder`'s requirements. The default search depth is `dim / 4`, rounded down. |
| BorderRemover.SideAxis | app.py:125-128 | The scorer is called with axis 1 for the top and bottom lines and axis 0 for the left and right lines. |
| BorderRemover.SideExtent | app.py:115-123 | A side's extent (`h` for top and bottom, `w` for left and right) is exactly the number of lines along that side's axis. |
| BorderRemover.Degenerate | app.py:135 | The guard `x1 >= x2 or y1 >= y2` holds exactly when the slice would have no columns or no rows. |
| BorderRemover.SideRange | app.py:120-123 | Each side's range is a step ±1 range: top and left are `range(depth, -1, -1)`, bottom and right are `range(dim - depth, dim)`. |
| BorderRemover.SideRangeInBounds | app.py:115-123 | Every candidate of every side's range is a row or column of the region of interest. |
| BorderRemover.BorderLine | app.py:120-128 | The top and left lines lie in `[0, depth]`. The bottom and right lines lie in `[dim - depth, dim]`, and equal `dim` exactly when the depth is 0. |
| BorderRemover.TrimBox | app.py:113-133 | The four crop edges are the frame lines shifted by `padding`. Each edge lies within its side's search zone, shifted by the padding, relative to the rectangle. |
| BorderRemover.CropDecision | app.py:84-143 | Panels under 30 pixels in either dimension, no contour, a degenerate box (`x1 >= x2` or `y1 >= y2`), or a crop under 10 pixels each pass through. Otherwise the verdict crops to the trim box. A crop lies inside the padded panel and inside the rectangle less the padding. It is at least 10 pixels and at most `w - 2*padding` wide, and likewise for the height. |
| BorderRemover.RemoveBorder | app.py:78-143 | A missing panel, and every pass-through verdict, return the panel unchanged. A crop verdict returns the padded panel sliced to the box, of size `(y2 - y1) x (x2 - x1)`. |
| BorderRemover.Pad | app.py:87-92 | The padded image is `2n` larger in each dimension and holds the original at offset `(n, n)`. |
| BorderRemover.PadBorderIsFill | app.py:89-92 | Every padded pixel outside the original's window is the fill colour. |
| BorderRemover.Crop | app.py:138 | `img[y1:y2, x1:x2]` has size `(y2 - y1) x (x2 - x1)`, and pixel `(i, j)` is `img[y1 + i][x1 + j]`. |
| BorderRemover.Roi | app.py:113 | `skeleton[y:y+h, x:x+w]` is an `h x w` mask whose cell `(j, k)` is `skeleton[y + j][x + k]`. |
| BorderRemover.TrimBoxInsidePanel | app.py:130-141 | When the rectangle lies inside the unpadded panel, the crop box lies inside it too. |
| BorderRemover.RemoveBorderNoLarger | app.py:84-143 | When the bounding rectangle lies inside the unpadded window, the panel that comes back is never larger than the input, in either dimension. |
| BorderRemover.CropOfPadIsWindow | app.py:87-92 | A box that stays off the padding crops the padded panel to a window of the original panel. The window is no larger than the panel and matches it pixel for pixel at the box's offset. |

## Left out

- OpenCV stages (app.py:89-111): the colour conversion, threshold, contour search, contour area, bounding rectangle, filled drawing, erosion, subtraction and thinning are foreign calls. Their outcome is the `Detection` input. The model requires only that the skeleton has the padded panel's size and that the rectangle is nonempty and inside it.
- The `thinning` fallback (app.py:39-47) is an import-time shim and is not modelled.
- The Gradio interface and `process_manga_images` (app.py:199-366) are file handling, archiving and progress reporting, and are not modelled.
- kumikolib panel detection is not part of this model.
- `imread_unicode` / `imwrite_unicode` and the monkey-patching (app.py:150-192) are file I/O and are not modelled.
- Pixels are of an arbitrary type `P`. The white fill colour is a parameter.
- LineScorer.FindBestBorderLine: scores are compared in exact arithmetic. The model does not reproduce a tie made or broken differently by float rounding of `progress / total_span`.
- BorderRemover.SearchDepth: `int(dim * ratio)` is the exact floor of a real product. Float rounding of the product is not modelled.
- BorderRemover.CropDecision: requires `0 <= ratio < 1`. A ratio of 1 or more makes the top range start at `h` or beyond, which indexes past the mask and raises an error in the source. A negative ratio is not modelled.
- BorderRemover.CropDecision: requires `padding >= 0` and a bounding rectangle inside the padded panel. NumPy's negative indices and the clamping of out-of-bounds slices are not modelled.
- LineScorer.FindBestBorderLine: requires step ±1 and candidates within the mask, which are the only ranges `remove_border` builds. The `IndexError` of an index past the mask is not modelled. Neither is NumPy's wrap-around for a negative index.
