/** Where `convert_txt_to_pdf` puts the wrapped lines of a text: on a US
    letter page (612 x 792 points) with a 50-point margin, the cursor
    starts at 792 - 50 = 742 and moves down 12 + 2 = 14 points per line;
    a new page begins when the cursor has fallen below the margin. That
    happens after exactly 50 lines, so the document is the lines in runs
    of 50, one run per page. */
module Layout {
  import opened Canvas

  const PageHeight := 792
  const Margin := 50
  const FontSize := 12
  const LineHeight := FontSize + 2
  const Top := PageHeight - Margin
  const LinesPerPage := 50

  function Min(a: int, b: int): int {
    if a <= b then a else b
  }

  /** A page holding the lines `ls`, the k-th drawn at the margin,
      `LineHeight * k` below the top. */
  function PageOf(ls: seq<string>): (p: Page)
    ensures |p| == |ls|
    ensures forall k :: 0 <= k < |ls| ==> p[k] == Draw(Margin, Top - LineHeight * k, ls[k])
  {
    seq(|ls|, k requires 0 <= k < |ls| => Draw(Margin, Top - LineHeight * k, ls[k]))
  }

  /** The number of pages for `n` lines: one page even when there are
      none, otherwise the ceiling of n / 50. */
  function PageCount(n: nat): nat {
    if n == 0 then 1 else (n + LinesPerPage - 1) / LinesPerPage
  }

  /** The document saved for the wrapped lines `ls`. */
  function LayOut(ls: seq<string>): (d: Document)
    ensures |d| >= 1
    ensures forall p :: 0 <= p < |d| ==> |d[p]| <= LinesPerPage
  {
    var n := PageCount(|ls|);
    seq(n, p requires 0 <= p < n =>
      PageOf(ls[LinesPerPage * p .. Min(LinesPerPage * p + LinesPerPage, |ls|)]))
  }

  // ---------------------------------------------------------------------------
  // What the layout promises

  /** Every page but the last is full, no page holds more than 50 lines,
      and the last page is empty only when there are no lines at all:
      `showPage` is called max(0, ceil(N / 50) - 1) times. */
  lemma PageFill(ls: seq<string>)
    ensures var d := LayOut(ls);
      && |d| >= 1
      && (forall p :: 0 <= p < |d| - 1 ==> |d[p]| == LinesPerPage)
      && |d[|d| - 1]| <= LinesPerPage
      && (|ls| > 0 <==> |d[|d| - 1]| > 0)
      && |d| - 1 == (if |ls| == 0 then 0 else (|ls| + LinesPerPage - 1) / LinesPerPage - 1)
  {
  }

  /** Every line is drawn at the margin, with the cursor between the top
      of the page and the bottom margin. */
  lemma CursorBounds(ls: seq<string>)
    ensures forall p: int, k: int :: 0 <= p < |LayOut(ls)| && 0 <= k < |LayOut(ls)[p]| ==>
      && LayOut(ls)[p][k].x == Margin
      && Margin <= LayOut(ls)[p][k].y <= Top
  {
    var d: seq<seq<Draw>> := LayOut(ls);
    forall p: int, k: int | 0 <= p < |d| && 0 <= k < |d[p]|
      ensures d[p][k].x == Margin && Margin <= d[p][k].y <= Top
    {
      assert |d[p]| <= LinesPerPage;
      assert d[p][k].y == Top - LineHeight * k;
    }
  }

  /** The texts drawn, page after page. */
  function DocTexts(d: Document): seq<string> {
    if d == [] then [] else PageTexts(d[0]) + DocTexts(d[1..])
  }

  function PageTexts(p: Page): (r: seq<string>)
    ensures |r| == |p| && forall k :: 0 <= k < |p| ==> r[k] == p[k].text
  {
    seq(|p|, k requires 0 <= k < |p| => p[k].text)
  }

  /** Past the first page, the layout is the layout of the rest. */
  lemma LayOutCons(ls: seq<string>)
    requires |ls| > LinesPerPage
    ensures LayOut(ls) == [PageOf(ls[..LinesPerPage])] + LayOut(ls[LinesPerPage..])
  {
    var d, rest := LayOut(ls), LayOut(ls[LinesPerPage..]);
    assert |d| == 1 + |rest|;
    forall p | 0 <= p < |rest| ensures d[p + 1] == rest[p] {
      var lo := LinesPerPage * p;
      var hi := Min(LinesPerPage * p + LinesPerPage, |ls| - LinesPerPage);
      assert ls[LinesPerPage..][lo..hi] == ls[lo + LinesPerPage..hi + LinesPerPage];
    }
  }

  /** Each line is drawn exactly once, in order. */
  lemma {:induction false} TextsInOrder(ls: seq<string>)
    ensures DocTexts(LayOut(ls)) == ls
    decreases |ls|
  {
    var d := LayOut(ls);
    if |ls| <= LinesPerPage {
      assert d == [PageOf(ls[0..|ls|])];
      assert ls[0..|ls|] == ls;
      assert DocTexts(d) == PageTexts(d[0]) + DocTexts([]);
    } else {
      LayOutCons(ls);
      TextsInOrder(ls[LinesPerPage..]);
      assert d[1..] == LayOut(ls[LinesPerPage..]);
      assert ls == ls[..LinesPerPage] + ls[LinesPerPage..];
    }
  }

  // ---------------------------------------------------------------------------
  // The cursor loop

  /** The canvas state after the lines `ls` have been drawn by the loop:
      `closed` pages are full runs of 50, `current` holds the rest, and it
      is empty only before the first line. */
  ghost predicate Holds(closed: seq<Page>, current: Page, ls: seq<string>) {
    && |ls| == LinesPerPage * |closed| + |current|
    && |current| <= LinesPerPage
    && (|ls| > 0 ==> |current| > 0)
    && (forall p :: 0 <= p < |closed| ==>
          closed[p] == PageOf(ls[LinesPerPage * p .. LinesPerPage * p + LinesPerPage]))
    && current == PageOf(ls[LinesPerPage * |closed|..])
  }

  /** The cursor the loop keeps is determined by the open page. */
  function Cursor(current: Page): int {
    Top - LineHeight * |current|
  }

  /** The cursor drops below the margin exactly when the open page is full. */
  lemma PageBreakWhenFull(current: Page)
    requires |current| <= LinesPerPage
    ensures Cursor(current) < Margin <==> |current| == LinesPerPage
    ensures |current| < LinesPerPage ==> Margin <= Cursor(current) <= Top
  {
  }

  lemma DrawOnPage(closed: seq<Page>, current: Page, ls: seq<string>, w: string)
    requires Holds(closed, current, ls) && |current| < LinesPerPage
    ensures Holds(closed, current + [Draw(Margin, Cursor(current), w)], ls + [w])
  {
    var ls' := ls + [w];
    forall p | 0 <= p < |closed|
      ensures ls'[LinesPerPage * p .. LinesPerPage * p + LinesPerPage]
           == ls[LinesPerPage * p .. LinesPerPage * p + LinesPerPage]
    {
    }
    assert ls'[LinesPerPage * |closed|..] == ls[LinesPerPage * |closed|..] + [w];
    PageOfSnoc(ls[LinesPerPage * |closed|..], w);
  }

  lemma PageOfSnoc(ls: seq<string>, w: string)
    ensures PageOf(ls + [w]) == PageOf(ls) + [Draw(Margin, Top - LineHeight * |ls|, w)]
  {
  }

  lemma DrawOnNewPage(closed: seq<Page>, current: Page, ls: seq<string>, w: string)
    requires Holds(closed, current, ls) && |current| == LinesPerPage
    ensures Holds(closed + [current], [Draw(Margin, Top, w)], ls + [w])
  {
    var ls' := ls + [w];
    var closed' := closed + [current];
    forall p | 0 <= p < |closed'|
      ensures closed'[p] == PageOf(ls'[LinesPerPage * p .. LinesPerPage * p + LinesPerPage])
    {
      assert ls'[LinesPerPage * p .. LinesPerPage * p + LinesPerPage]
          == ls[LinesPerPage * p .. LinesPerPage * p + LinesPerPage];
    }
    assert ls'[LinesPerPage * |closed'|..] == [w];
    assert PageOf([w]) == [Draw(Margin, Top, w)];
  }

  /** What `save` writes once the loop is over is the layout of the lines. */
  lemma SavedIsLayOut(closed: seq<Page>, current: Page, ls: seq<string>)
    requires Holds(closed, current, ls)
    ensures closed + [current] == LayOut(ls)
  {
    var d := LayOut(ls);
    assert |d| == |closed| + 1;
    forall p | 0 <= p < |closed| ensures d[p] == closed[p] {
    }
    assert ls[LinesPerPage * |closed| .. |ls|] == ls[LinesPerPage * |closed|..];
  }
}
