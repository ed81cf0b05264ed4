# d3-tree-map: the script's own rules, in Dafny

The repository draws a treemap of video-game sales with d3. It has one script,
`app.js`. Most of the script wires d3: it fetches the data, builds the SVG, lays
out the tiles, zooms, shows tooltips and picks colours. Four rules in it are the
script's own, and this project models those four as pure functions and proves
what they promise:

- **Sibling order** (module `SiblingOrder`, `sibling_order.dfy`). This is the
  comparator handed to `root.sort`. It orders siblings by height, tallest first,
  then by summed value, heaviest first.
- **Legend categories** (module `Categories`, `categories.dfy`). The leaves'
  categories are de-duplicated with `filter((c, i, self) => self.indexOf(c) === i)`.
  The filter keeps each category's first occurrence, in order.
- **Legend grid** (module `Legend`, `legend.dfy`). The row holds
  `Math.floor(legendWidth / 150)` items. Item `i` is translated to
  `(i % perRow * 150, floor(i / perRow) * 25)`.
- **Tile labels** (module `Labels`, `labels.dfy`). A name is split with
  `/(?=[A-Z][^A-Z])/`, which cuts before each capital that is followed by a
  non-capital. Each piece becomes a `tspan` at `(4, 13 + 10 * i)`. The root and
  nodes without a category get none.

`wrappers.dfy` holds the `Option` type. It stands for a missing category, and
for a legend translate whose coordinates JavaScript computes as NaN or Infinity.

The treemap layout is not part of this model: `app.js:25-27` only configures
d3's `treemap()` and `app.js:48` only calls it. The squarifying algorithm is
d3's code, not this repository's.

Decisions that go beyond a literal reading:

- **Legend narrower than 150.** With `legendWidth` from 0 up to 150,
  `perRow` is 0. Then `i % 0` is NaN, `Math.floor(i / 0)` is Infinity, and the
  transform is invalid. The model does
  not forbid such widths with a precondition. `ItemTranslate` returns `None` for
  them, and `LegendLayout` proves that no item of such a legend gets a translate.
- **Negative widths.** `FloorDiv` and `TruncRem` reproduce JavaScript's
  `Math.floor` and `%`, so the translates for negative widths are computed as the
  script computes them. The grid properties are proved for `perRow >= 1`.
- **Empty names.** JavaScript's regular-expression split is modelled as the scan
  the language defines (`SplitScan`). A match is skipped when it would end a
  piece where that piece began, so there is never a cut at index 0. The empty
  string splits into one empty piece, so a categorised node with an empty name
  still gets one (empty) line.
- **Missing categories in the legend.** `root.leaves().map(n => n.data.category)`
  yields `undefined` for a leaf without a category, and the filter keeps one such
  entry. The legend's input is therefore a list of `Option<string>`, with `None`
  for `undefined`.
- **Falsy categories.** `!d.data.category` holds for a missing category and for
  the empty string. The predicate `Falsy` covers both.

## Model

| member | source | states |
|---|---|---|
| `SiblingOrder.Compare` | app.js:47 | The result is negative exactly when `a` is taller, or as tall and heavier. It is positive exactly in the mirrored case, and zero exactly when height and value both agree. Between equal heights its sign is the sign of `b.value - a.value`. |
| `SiblingOrder.CompareAntisymmetric` | app.js:47 | Swapping the two nodes negates the result. |
| `SiblingOrder.CompareTransitive` | app.js:47 | "Sorts no later than" is transitive, so the comparator is a consistent order for `sort`. |
| `SiblingOrder.SortedPairwise` | app.js:47 | In a sibling list with no inverted neighbours, every earlier child sorts no later than every later one. Heights never increase along the list, and values never increase within one height. |
| `SiblingOrder.SortedFirstIsTallestHeaviest` | app.js:47 | In a sorted sibling list no child sorts before the first one. |
| `Categories.KeepFirst` | app.js:114 | The filter `self.indexOf(c) === i` over the first `n` elements, with the whole array as `self`. Its contract is stated by `KeepFirstPrefix`, `FirstIndexIff` and `DedupeSnoc`. |
| `Categories.KeepFirstPrefix` | app.js:114 | The filter's decision on element `i` depends only on the elements up to `i`, so it is the same on any prefix that still holds element `i`. |
| `Categories.Dedupe` | app.js:113-114 | The de-duplicated category list. What it promises is stated by the `Dedupe*` lemmas below. |
| `Categories.IndexOf` | app.js:114 | `indexOf` gives -1 exactly when the value is absent. Otherwise it gives an index holding the value, with no earlier occurrence. |
| `Categories.FirstIndexIff` | app.js:114 | The filter test `self.indexOf(c) === i` holds exactly when element `i` does not occur earlier. |
| `Categories.DedupeSnoc` | app.js:113-114 | Appending a category to the leaves appends it to the filtered list, unless it already occurred. |
| `Categories.DedupeSameElements` | app.js:113-114 | The filtered list holds exactly the categories of the leaves. |
| `Categories.DedupeDistinct` | app.js:113-114 | No category occurs twice in the filtered list. |
| `Categories.DedupeLength` | app.js:113-114 | The filtered list is never longer than the leaf list. |
| `Categories.DedupeFirstOccurrenceOrder` | app.js:113-114 | The filtered categories appear in the order of their first occurrence among the leaves. |
| `Categories.DedupeIsSubsequence` | app.js:113-114 | The filtered list is a subsequence of the leaf list: elements are only dropped, never reordered. |
| `Categories.DedupeOfDistinct` | app.js:114 | A list without repeats passes the filter unchanged. |
| `Categories.DedupeIdempotent` | app.js:114 | Filtering a second time changes nothing. |
| `Legend.ElemsPerRow` | app.js:124 | `Math.floor(legendWidth / 150)`: `perRow * 150 <= legendWidth < (perRow + 1) * 150`, the number of whole 150-wide cells that fit. |
| `Legend.FloorDiv` | app.js:135 | `Math.floor(a / b)`: for a positive divisor, `b * r <= a < b * r + b`; for a negative one, `b * r + b < a <= b * r`. |
| `Legend.TruncRem` | app.js:134 | JavaScript's `%` on a non-negative index: a remainder in `[0, abs(b))` that completes the division of `a` by `abs(b)`. |
| `Legend.ItemTranslate` | app.js:132-135 | The translate of item `i`. It is undefined (NaN or Infinity in the script) exactly when no item fits on a row. Its placement is stated by `ItemPlacement`, `ItemsApart` and `NextItem`. |
| `Legend.LegendItems` | app.js:113-135 | One item per de-duplicated leaf category, with item `i` at the translate of index `i`. Its contract is stated by `LegendLayout`. |
| `Legend.ElemsPerRowBounds` | app.js:124 | `floor(legendWidth / 150)` is at least 1 exactly when the width is at least 150. It is 0 exactly when the width is in `[0, 150)`. |
| `Legend.ItemPlacement` | app.js:132-135 | With at least one item per row, item `i` is translated by a whole number of columns and rows. Its column lies inside the row, and `row * perRow + column == i`, which is row-major order. |
| `Legend.ItemsApart` | app.js:132-135 | Two distinct items are at least 150 apart horizontally or at least 25 apart vertically, so their cells never overlap. |
| `Legend.NextItem` | app.js:132-135 | The next item sits one column to the right when the row has room. Otherwise it starts the next row at x = 0, 25 lower. |
| `Legend.ItemFitsWidth` | app.js:124-135 | In a legend at least 150 wide, every item is placed at non-negative coordinates relative to the item group's origin, and its 150-wide cell ends within `legendWidth` measured from that origin. |
| `Legend.GroupOffsetOverrunsWidth` | app.js:124-135 | The item group sits 60 to the right of the legend's origin, which the items-per-row rule ignores: at width 900 the sixth item's cell ends at 960 in the legend's coordinates. |
| `Legend.LegendLayout` | app.js:113-135 | The legend names each leaf category exactly once, in order of first occurrence, and nothing else. When the legend is at least 150 wide, item `i` sits in the `i`-th cell of the row-major grid (`AtCell`), every cell ends within `legendWidth` measured from the item group's origin, and no two cells overlap. When it is narrower but not negative, no item gets a valid translate. |
| `Labels.SplitScan` | app.js:105 | The scan that `String.prototype.split` runs with the lookahead `/(?=[A-Z][^A-Z])/`. Its contract is stated by the `SplitScan*` lemmas below. |
| `Labels.SplitBeforeCapitals` | app.js:105 | `name.split(/(?=[A-Z][^A-Z])/g)`. Its contract is stated by `SplitRoundTrip` and `SplitCutsExactly`. |
| `Labels.LabelLines` | app.js:101-110 | The `tspan` lines of a node's label. Its contract is stated by `LabelLinesLayout`. |
| `Labels.SplitScanConcat` | app.js:105 | The split scan's pieces join back to the rest of the string. |
| `Labels.SplitScanCuts` | app.js:105 | The scan cuts exactly at the lookahead matches it reaches, except at the position where the current piece began. |
| `Labels.SplitScanNonEmpty` | app.js:105 | The scan yields at least one piece, and the first piece starts where the scan started. |
| `Labels.SplitScanPieces` | app.js:105 | Every piece after the first has at least two characters: a capital followed by a non-capital. |
| `Labels.SplitRoundTrip` | app.js:105 | Concatenating the label pieces gives back the name. |
| `Labels.SplitCutsExactly` | app.js:105 | The name is cut exactly before each capital followed by a non-capital, and never at index 0. There is at least one piece, every later piece starts with such a pair, and a non-empty name gives no empty piece. |
| `Labels.LabelLinesLayout` | app.js:101-110 | The root title and nodes with a missing or empty category get no lines. Every other node gets one line per piece of its split name, in order (line `i` holds piece `i`), and the lines spell out its name. Every line has x = 4. The first baseline is 13 and each later one is 10 lower, so the y values strictly increase. |

## Left out

- The treemap layout, `d3.hierarchy`, `root.sum`, `root.leaves` and `root.descendants` (app.js:25-27, 45-46, 48, 54, 92, 113) are d3 code, which is not part of this model. The comparator takes each node's height and summed value as given. The legend takes the leaves' categories as a list.
- `root.sort` is d3's sort, so it is not modelled. The model proves the comparator's ordering laws and what a list sorted by it looks like.
- The layout configuration, `size([innerHeight * 1.7, innerWidth * 1.7])` with `paddingInner(1)` (app.js:25-27), only feeds d3. Width and height are swapped there and both scaled by 1.7. Nothing is stated about it.
- Fetching the dataset with `d3.json` (app.js:43) is network I/O.
- SVG and DOM construction, attribute wiring, tooltip show, hide and positioning, zoom handling, and `console.log` (app.js:5-13, 30-40, 51-99, 116, 118-123, 125-131, 136-149) are UI side effects. The legend group's own offset `translate(60, 10)` enters only `GroupOffsetOverrunsWidth`, and the swatch and text attributes are left out. Otherwise only each item's translate is modelled.
- The colour scale and `interpolateRgb` fading (app.js:21-22) are floating-point colour math inside d3.
- `parseFloat` of the SVG size and the margins (app.js:6-7, 16-18) feed only d3 and the zoom group.
- Legend.ElemsPerRow: the width is an exact real number. A non-numeric `width` attribute makes `+legend.attr("width")` NaN, and then every translate is NaN; that case is not modelled. The division `legendWidth / 150` is exact rather than floating-point.
- Legend.LegendItems: the text a legend item shows for an `undefined` category is not modelled; the item carries `None`.
- Legend.ItemFitsWidth: the fit is stated in the item group's frame. The group is translated by (60, 10) in the legend, and the items-per-row rule ignores that offset, so the last column's cell can end up to 60 past the legend's width (`GroupOffsetOverrunsWidth` exhibits one case).
- SiblingOrder.Compare: heights are natural numbers and values are exact reals. NaN and undefined values, and floating-point rounding of the value difference, are not modelled.
- Legend.ItemPlacement: `Math.floor(i / perRow)` is modelled as exact integer floor division. Floating-point division gives the same result for the integer sizes a legend can have. The grid properties are proved only for `perRow >= 1`. The translates for negative widths are computed but not characterised.
- Labels.SplitCutsExactly: strings are sequences of Unicode characters, not UTF-16 code units. A character outside the Basic Multilingual Plane is never in `[A-Z]`, so the cuts are the same either way.
