/** Tile labels (app.js lines 97-110): a node's name is cut before every capital
    letter that is followed by a non-capital, and each piece becomes one text line
    of the tile, line `i` at `(4, 13 + 10 * i)`. */
module Labels {
  import opened Wrappers

  /** The root node's name; the root gets no label. */
  const RootTitle: string := "Video Game Sales Data Top 100"
  /** Horizontal position of every label line within its tile. */
  const LineX: int := 4
  /** Baseline of the first label line. */
  const FirstLineY: int := 13
  /** Distance between the baselines of consecutive label lines. */
  const LineSpacing: int := 10

  /** A character of the regular expression's class `[A-Z]`. */
  predicate IsCapital(c: char) {
    'A' <= c <= 'Z'
  }

  /** The lookahead `(?=[A-Z][^A-Z])` matches at position `q`. */
  predicate StartsWord(s: string, q: int) {
    0 <= q && q + 1 < |s| && IsCapital(s[q]) && !IsCapital(s[q + 1])
  }

  /** The scan `String.prototype.split` runs with a regular expression: `p` is where
      the current piece began, `q` the position tried next. A match at `q` ends the
      current piece there, except when it would end it where it began (so there is
      never a cut at index 0); at the end the rest of the string is the last piece. */
  function SplitScan(s: string, p: nat, q: nat): seq<string>
    requires p <= q <= |s|
    decreases |s| - q
  {
    if q == |s| then [s[p..]]
    else if q != p && StartsWord(s, q) then [s[p..q]] + SplitScan(s, q, q + 1)
    else SplitScan(s, p, q + 1)
  }

  /** `name.split(/(?=[A-Z][^A-Z])/g)`. The empty name splits into one empty piece. */
  function SplitBeforeCapitals(name: string): seq<string> {
    SplitScan(name, 0, 0)
  }

  /** The pieces joined back together. */
  function Concat(pieces: seq<string>): string {
    if pieces == [] then [] else pieces[0] + Concat(pieces[1..])
  }

  /** Where the pieces meet, as positions in their concatenation, offset by `base`. */
  function Cuts(pieces: seq<string>, base: int): set<int>
    decreases |pieces|
  {
    if |pieces| <= 1 then {} else {base + |pieces[0]|} + Cuts(pieces[1..], base + |pieces[0]|)
  }

  /** One `tspan` of a label. */
  datatype Line = Line(x: int, y: int, text: string)

  /** `!d.data.category`: the category is missing or the empty string. */
  predicate Falsy(category: Option<string>) {
    category.None? || category.value == ""
  }

  /** The label lines of a node (app.js lines 101-110): none for the root and for
      nodes without a category, otherwise one per piece of the split name. */
  function LabelLines(name: string, category: Option<string>): seq<Line> {
    if name == RootTitle || Falsy(category) then []
    else
      var pieces := SplitBeforeCapitals(name);
      seq(|pieces|, i requires 0 <= i < |pieces| => Line(LineX, FirstLineY + i * LineSpacing, pieces[i]))
  }

  /** The texts of a label's lines, in order. */
  function Texts(lines: seq<Line>): seq<string> {
    seq(|lines|, i requires 0 <= i < |lines| => lines[i].text)
  }

  /** The scan from `(p, q)` yields pieces that join back to the rest of the string. */
  lemma {:induction false} SplitScanConcat(s: string, p: nat, q: nat)
    requires p <= q <= |s|
    ensures Concat(SplitScan(s, p, q)) == s[p..]
    decreases |s| - q
  {
    if q == |s| {
      assert Concat([s[p..]]) == s[p..] + Concat([]);
    } else if q != p && StartsWord(s, q) {
      SplitScanConcat(s, q, q + 1);
      ConcatAtCut(s, p, q);
    } else {
      SplitScanConcat(s, p, q + 1);
    }
  }

  /** The step of SplitScanConcat where a piece ends at a match. */
  lemma ConcatAtCut(s: string, p: nat, q: nat)
    requires p < q < |s| && StartsWord(s, q)
    requires Concat(SplitScan(s, q, q + 1)) == s[q..]
    ensures Concat(SplitScan(s, p, q)) == s[p..]
  {
  }

  /** The scan from `(p, q)` cuts at exactly the matches at or after `q`, other than at `p`. */
  lemma {:induction false} SplitScanCuts(s: string, p: nat, q: nat)
    requires p <= q <= |s|
    ensures Cuts(SplitScan(s, p, q), p) == set c | q <= c < |s| && c != p && StartsWord(s, c)
    decreases |s| - q
  {
    if q == |s| {
      var want := set c | q <= c < |s| && c != p && StartsWord(s, c);
      assert want == {};
    } else if q != p && StartsWord(s, q) {
      SplitScanCuts(s, q, q + 1);
      CutsAtCut(s, p, q);
    } else {
      SplitScanCuts(s, p, q + 1);
      CutsPastNonCut(s, p, q);
    }
  }

  /** The step of SplitScanCuts where a piece ends at a match. */
  lemma CutsAtCut(s: string, p: nat, q: nat)
    requires p < q < |s| && StartsWord(s, q)
    requires Cuts(SplitScan(s, q, q + 1), q) == set c | q + 1 <= c < |s| && c != q && StartsWord(s, c)
    ensures Cuts(SplitScan(s, p, q), p) == set c | q <= c < |s| && c != p && StartsWord(s, c)
  {
    var r, t := SplitScan(s, p, q), SplitScan(s, q, q + 1);
    SplitScanNonEmpty(s, q, q + 1);
    assert r == [s[p..q]] + t;
    assert |r| > 1 && |r[0]| == q - p && r[1..] == t;
    assert Cuts(r, p) == {q} + Cuts(t, q);
    var want := set c | q <= c < |s| && c != p && StartsWord(s, c);
    var rest := set c | q + 1 <= c < |s| && c != q && StartsWord(s, c);
    forall c ensures c in want <==> c in {q} + rest {
    }
  }

  /** The step of SplitScanCuts where no piece ends at `q`. */
  lemma CutsPastNonCut(s: string, p: nat, q: nat)
    requires p <= q < |s| && !(q != p && StartsWord(s, q))
    requires Cuts(SplitScan(s, p, q + 1), p) == set c | q + 1 <= c < |s| && c != p && StartsWord(s, c)
    ensures Cuts(SplitScan(s, p, q), p) == set c | q <= c < |s| && c != p && StartsWord(s, c)
  {
  }

  /** The scan always yields at least one piece, and its first piece begins at `p`
      and reaches at least to `q`. */
  lemma {:induction false} SplitScanNonEmpty(s: string, p: nat, q: nat)
    requires p <= q <= |s|
    ensures var r := SplitScan(s, p, q);
      |r| >= 1 && q - p <= |r[0]| <= |s| - p && r[0] == s[p..p + |r[0]|]
    decreases |s| - q
  {
    if q < |s| && !(q != p && StartsWord(s, q)) {
      SplitScanNonEmpty(s, p, q + 1);
    }
  }

  /** Every piece after the first begins with a capital followed by a non-capital. */
  predicate LaterPiecesStartWords(pieces: seq<string>) {
    forall i :: 1 <= i < |pieces| ==> |pieces[i]| >= 2 && IsCapital(pieces[i][0]) && !IsCapital(pieces[i][1])
  }

  /** The pieces the scan yields after its first begin where a match was found. */
  lemma {:induction false} SplitScanPieces(s: string, p: nat, q: nat)
    requires p <= q <= |s|
    ensures LaterPiecesStartWords(SplitScan(s, p, q))
    decreases |s| - q
  {
    if q == |s| {
    } else if q != p && StartsWord(s, q) {
      SplitScanPieces(s, q, q + 1);
      PiecesAtCut(s, p, q);
    } else {
      SplitScanPieces(s, p, q + 1);
      assert SplitScan(s, p, q) == SplitScan(s, p, q + 1);
    }
  }

  /** The step of SplitScanPieces where a piece ends at a match. */
  lemma PiecesAtCut(s: string, p: nat, q: nat)
    requires p < q < |s| && StartsWord(s, q)
    requires LaterPiecesStartWords(SplitScan(s, q, q + 1))
    ensures LaterPiecesStartWords(SplitScan(s, p, q))
  {
    var r, t := SplitScan(s, p, q), SplitScan(s, q, q + 1);
    assert r[1..] == t;
    // The position after a match holds a non-capital, so the next piece is not cut there.
    assert t == SplitScan(s, q, q + 2);
    SplitScanNonEmpty(s, q, q + 2);
    var first := t[0];
    assert first == s[q..q + |first|];
    forall i | 1 <= i < |r| ensures |r[i]| >= 2 && IsCapital(r[i][0]) && !IsCapital(r[i][1]) {
      assert r[i] == t[i - 1];
    }
  }

  /** Joining the pieces gives back the name. */
  lemma SplitRoundTrip(name: string)
    ensures Concat(SplitBeforeCapitals(name)) == name
  {
    SplitScanConcat(name, 0, 0);
  }

  /** The name is cut exactly before each capital that is followed by a non-capital,
      except at its very start; every later piece begins with such a pair, and a
      non-empty name yields no empty piece. */
  lemma SplitCutsExactly(name: string)
    ensures Cuts(SplitBeforeCapitals(name), 0) == set q | 0 < q < |name| && StartsWord(name, q)
    ensures 0 !in Cuts(SplitBeforeCapitals(name), 0)
    ensures var r := SplitBeforeCapitals(name);
      && |r| >= 1
      && LaterPiecesStartWords(r)
      && (name != [] ==> forall i :: 0 <= i < |r| ==> r[i] != [])
  {
    SplitScanCuts(name, 0, 0);
    SplitScanPieces(name, 0, 0);
    if name != [] {
      assert SplitBeforeCapitals(name) == SplitScan(name, 0, 1);
      SplitScanNonEmpty(name, 0, 1);
    } else {
      SplitScanNonEmpty(name, 0, 0);
    }
  }

  /** The root and nodes without a category get no lines; every other node gets one
      line per piece of its split name, in order, so the lines spell out the name;
      all start at x = 4, and each baseline lies 10 below the one before, starting
      at 13. */
  lemma LabelLinesLayout(name: string, category: Option<string>)
    ensures var lines := LabelLines(name, category);
      |lines| == 0 <==> name == RootTitle || Falsy(category)
    ensures var lines := LabelLines(name, category);
      |lines| > 0 ==>
        && Texts(lines) == SplitBeforeCapitals(name)
        && Concat(Texts(lines)) == name
        && lines[0].y == FirstLineY
        && (forall i :: 0 <= i < |lines| ==> lines[i].x == LineX)
        && (forall i :: 0 < i < |lines| ==> lines[i].y == lines[i - 1].y + LineSpacing)
        && (forall i, j :: 0 <= i < j < |lines| ==> lines[i].y < lines[j].y)
  {
    var lines := LabelLines(name, category);
    if !(name == RootTitle || Falsy(category)) {
      SplitCutsExactly(name);
      SplitRoundTrip(name);
      assert Texts(lines) == SplitBeforeCapitals(name);
    }
  }
}
