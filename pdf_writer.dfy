/**
 * The page layout of `qrdm/qr/pdf_writer.py`: the stable largest-first
 * ordering of the codes, the typewriter-style packing of code drawings into
 * rows and pages, and the splitting of the caption across pages. Coordinates
 * are PDF points (1/72 inch) measured from the bottom-left corner of a US
 * letter page.
 */
module PdfWriter {
  import opened Wrappers
  import opened ByteRows

  const INCH: real := 72.0
  /** Upper-left corner of the code region. */
  const START_X_PX: real := 0.25 * INCH
  const START_Y_PX: real := 10.25 * INCH
  /** The right edge of the code region, symmetric with the left one. */
  const MAX_X_PX: real := 8.5 * INCH - START_X_PX
  /** Lower edge of the code region when a caption is printed under it. */
  const MIN_Y_PX: real := 4.75 * INCH
  /** Lower edge of the code region without a caption: a half-inch bottom margin. */
  const NO_TEXT_MIN_Y_PX: real := 0.75 * INCH
  const QR_MARGIN_PX: real := 0.25 * INCH
  const CAPTION_CHAR_WIDTH: nat := 192
  const MAX_CHAR_LIMIT: nat := 8640  // 45 lines of CAPTION_CHAR_WIDTH characters

  // -----------------------------------------------------------------------
  // _generate_qr_code_svgs: largest version first, stable

  ghost predicate IsIndexPermutation(order: seq<nat>, n: nat) {
    && |order| == n
    && (forall i :: 0 <= i < n ==> order[i] < n)
    && (forall k: nat :: k < n ==> k in order)
    && (forall i, j :: 0 <= i < j < n ==> order[i] != order[j])
  }

  /** Indices ordered by version, largest first, equal versions in index order. */
  ghost predicate LargestFirst(versions: seq<int>, order: seq<nat>)
    requires forall i :: 0 <= i < |order| ==> order[i] < |versions|
  {
    forall i, j :: 0 <= i < j < |order| ==>
      versions[order[i]] > versions[order[j]] || (versions[order[i]] == versions[order[j]] && order[i] < order[j])
  }

  /** Inserts index `k`, larger than every index in `order`, behind every index whose version is at least its own. */
  function InsertByVersion(versions: seq<int>, order: seq<nat>, k: nat): (r: seq<nat>)
    requires k < |versions|
    requires forall i :: 0 <= i < |order| ==> order[i] < k
    requires LargestFirst(versions, order)
    ensures |r| == |order| + 1
    ensures forall x :: x in r <==> x in order || x == k
    ensures forall i :: 0 <= i < |r| ==> r[i] <= k
    ensures LargestFirst(versions, r)
    decreases |order|
  {
    if order == [] || versions[order[0]] < versions[k] then
      PrependLargestFirst(versions, k, order);
      [k] + order
    else
      var rest := InsertByVersion(versions, order[1..], k);
      assert forall j :: 1 <= j < |order| ==> order[j] == order[1..][j - 1];
      forall j | 0 <= j < |rest|
        ensures versions[order[0]] > versions[rest[j]] || (versions[order[0]] == versions[rest[j]] && order[0] < rest[j])
      {
        assert rest[j] in rest;
      }
      PrependLargestFirst(versions, order[0], rest);
      [order[0]] + rest
  }

  lemma PrependLargestFirst(versions: seq<int>, x: nat, rest: seq<nat>)
    requires x < |versions| && forall i :: 0 <= i < |rest| ==> rest[i] < |versions|
    requires LargestFirst(versions, rest)
    requires forall j :: 0 <= j < |rest| ==>
      versions[x] > versions[rest[j]] || (versions[x] == versions[rest[j]] && x < rest[j])
    ensures LargestFirst(versions, [x] + rest)
  {
    var r := [x] + rest;
    forall i, j | 0 <= i < j < |r|
      ensures versions[r[i]] > versions[r[j]] || (versions[r[i]] == versions[r[j]] && r[i] < r[j])
    {
      if i > 0 {
        assert r[i] == rest[i - 1] && r[j] == rest[j - 1];
      }
    }
  }

  /** `sorted(range(len(qr_sizes)), key=qr_sizes.__getitem__, reverse=True)` on the first `n` indices. */
  function SortBySize(versions: seq<int>, n: nat): (order: seq<nat>)
    requires n <= |versions|
    ensures |order| == n
    ensures forall x: nat :: x in order <==> x < n
    ensures forall i :: 0 <= i < |order| ==> order[i] < n
    ensures LargestFirst(versions, order)
  {
    if n == 0 then []
    else InsertByVersion(versions, SortBySize(versions, n - 1), n - 1)
  }

  /** The code size order is a permutation of the indices, largest first and stable. */
  lemma {:induction false} CodeSizeOrder(versions: seq<int>)
    ensures IsIndexPermutation(SortBySize(versions, |versions|), |versions|)
    ensures LargestFirst(versions, SortBySize(versions, |versions|))
  {
    var order := SortBySize(versions, |versions|);
    forall i, j | 0 <= i < j < |order|
      ensures order[i] != order[j]
    {
      DistinctInOrder(versions, order, i, j);
    }
  }

  lemma DistinctInOrder(versions: seq<int>, order: seq<nat>, i: nat, j: nat)
    requires forall k :: 0 <= k < |order| ==> order[k] < |versions|
    requires LargestFirst(versions, order)
    requires i < j < |order|
    ensures order[i] != order[j]
  {
  }

  /** `[qr_codes[ii] for ii in code_size_order]` */
  function Reorder<T>(items: seq<T>, order: seq<nat>): (r: seq<T>)
    requires forall i :: 0 <= i < |order| ==> order[i] < |items|
    ensures |r| == |order|
    ensures forall i :: 0 <= i < |order| ==> r[i] == items[order[i]]
  {
    seq(|order|, i requires 0 <= i < |order| => items[order[i]])
  }

  /** The reordered codes are the input codes, largest version first, each exactly once. */
  lemma SortedCodes<T>(codes: seq<T>, versions: seq<int>)
    requires |versions| == |codes|
    ensures var sorted := Reorder(codes, SortBySize(versions, |codes|));
      && |sorted| == |codes|
      && multiset(sorted) == multiset(codes)
  {
    var order := SortBySize(versions, |codes|);
    CodeSizeOrder(versions);
    ReorderPermutation(codes, order);
  }

  lemma {:induction false} ReorderPermutation<T>(items: seq<T>, order: seq<nat>)
    requires IsIndexPermutation(order, |items|)
    ensures multiset(Reorder(items, order)) == multiset(items)
  {
    var n := |items|;
    // every index occurs once in `order`, so the reordering takes each item once
    var inv := seq(n, k requires 0 <= k < n => IndexIn(order, k));
    assert forall k :: 0 <= k < n ==> k in order;
    assert forall i :: 0 <= i < n ==> inv[order[i]] == i by {
      forall i | 0 <= i < n ensures inv[order[i]] == i {
        IndexInSpec(order, order[i]);
      }
    }
    MultisetByBijection(items, Reorder(items, order), order, inv);
  }

  /** The position of `k` in `order`. */
  function IndexIn(order: seq<nat>, k: nat): (i: nat)
    ensures k in order ==> i < |order| && order[i] == k
    ensures k !in order ==> i == |order|
    decreases |order|
  {
    if order == [] then 0
    else if order[0] == k then 0
    else 1 + IndexIn(order[1..], k)
  }

  lemma IndexInSpec(order: seq<nat>, k: nat)
    requires k in order
    requires forall i, j :: 0 <= i < j < |order| ==> order[i] != order[j]
    ensures forall i :: 0 <= i < |order| && order[i] == k ==> IndexIn(order, k) == i
  {
  }

  lemma {:induction false} MultisetByBijection<T>(a: seq<T>, b: seq<T>, f: seq<nat>, g: seq<nat>)
    requires |a| == |b| == |f| == |g|
    requires forall i :: 0 <= i < |b| ==> f[i] < |a| && b[i] == a[f[i]]
    requires forall i :: 0 <= i < |b| ==> g[f[i]] == i
    requires forall k :: 0 <= k < |a| ==> g[k] < |b| && f[g[k]] == k
    ensures multiset(a) == multiset(b)
    decreases |a|
  {
    if |a| > 0 {
      // remove the last element of `a` and its image in `b`
      var n := |a| - 1;
      var p := g[n];
      var a' := a[..n];
      var b' := b[..p] + b[p + 1..];
      var f' := seq(n, i requires 0 <= i < n => if i < p then f[i] else f[i + 1]);
      var g' := seq(n, k requires 0 <= k < n => if g[k] < p then g[k] else g[k] - 1);
      forall i | 0 <= i < n
        ensures f'[i] < n && b'[i] == a'[f'[i]]
      {
        if i < p {
          assert f[i] != n by { assert g[f[i]] == i; }
        } else {
          assert f[i + 1] != n by { assert g[f[i + 1]] == i + 1; }
        }
      }
      forall i | 0 <= i < n
        ensures g'[f'[i]] == i
      {
        if i < p {
          assert g[f[i]] == i;
        } else {
          assert g[f[i + 1]] == i + 1;
        }
      }
      forall k | 0 <= k < n
        ensures g'[k] < n && f'[g'[k]] == k
      {
        assert g[k] != p by { assert f[g[k]] == k; assert f[p] == n; }
      }
      MultisetByBijection(a', b', f', g');
      assert a == a' + [a[n]];
      assert b == b[..p] + [b[p]] + b[p + 1..];
      assert b[p] == a[n];
    }
  }

  // -----------------------------------------------------------------------
  // _get_qr_positions_per_page

  /** A rendered code: its width and height in points. */
  datatype Drawing = Drawing(width: real, height: real)

  /** The upper-left corner at which a code is drawn. */
  datatype Position = Position(x: real, y: real)

  /** `(qr_counter, ii)`: the codes `start <= j < end` are drawn on one page. */
  datatype PageRange = PageRange(start: nat, end: nat)

  datatype Layout = Layout(pageQrs: seq<PageRange>, positions: seq<Position>)

  /** The `RuntimeError` raised for a code that cannot be placed. */
  datatype LayoutError = UnableToFit(index: nat)

  /** `min_y_px` */
  function MinY(includeText: bool): (y: real)
    ensures includeText ==> y == 4.75 * INCH
    ensures !includeText ==> y == 0.75 * INCH
  {
    if includeText then MIN_Y_PX else NO_TEXT_MIN_Y_PX
  }

  /**
   * The page ranges cover `0..n` in order, each page non-empty when there is
   * a code; without codes there is the one empty page the final append adds.
   */
  ghost predicate PartitionsCodes(pages: seq<PageRange>, n: nat) {
    && |pages| > 0
    && (n == 0 ==> |pages| == 1)
    && pages[0].start == 0
    && pages[|pages| - 1].end == n
    && (forall p :: 0 <= p < |pages| - 1 ==> pages[p].end == pages[p + 1].start)
    && (forall p :: 0 <= p < |pages| ==> pages[p].start <= pages[p].end)
    && (n > 0 ==> forall p :: 0 <= p < |pages| ==> pages[p].start < pages[p].end)
  }

  /** A code drawn at `pos` lies inside the code region. */
  ghost predicate InsideRegion(pos: Position, qr: Drawing, minY: real) {
    pos.x + qr.width <= MAX_X_PX && pos.y - qr.height >= minY
  }

  /** How the cursor moves from one code to the next. */
  datatype Move = SameRow | NewRow | NewPage

  /** The move for code `qr` with the cursor at (`curX`, `curY`) in a row of height `lastH`. */
  function CursorMove(curX: real, curY: real, lastH: real, qr: Drawing, minY: real): Move {
    if curX + qr.width <= MAX_X_PX then SameRow
    else if curY - (lastH + QR_MARGIN_PX) - qr.height >= minY then NewRow
    else NewPage
  }

  /** Where the code goes: at the cursor, at the start of the next row, or at the top of a new page. */
  function CursorPosition(curX: real, curY: real, lastH: real, move: Move): Position {
    match move
    case SameRow => Position(curX, curY)
    case NewRow => Position(START_X_PX, curY - (lastH + QR_MARGIN_PX))
    case NewPage => Position(START_X_PX, START_Y_PX)
  }

  /** The move the layout makes after drawing `prev` at `prevPos`, for the next code `qr`. */
  function MoveFor(prevPos: Position, prev: Drawing, qr: Drawing, minY: real): Move {
    CursorMove(prevPos.x + prev.width + QR_MARGIN_PX, prevPos.y, prev.height, qr, minY)
  }

  /** Where the next code goes: right of the previous one, at the start of a row below it, or at the top of a new page. */
  function Next(prevPos: Position, prev: Drawing, move: Move): Position {
    CursorPosition(prevPos.x + prev.width + QR_MARGIN_PX, prevPos.y, prev.height, move)
  }

  ghost predicate FitsBlankPage(qr: Drawing, minY: real) {
    InsideRegion(Position(START_X_PX, START_Y_PX), qr, minY)
  }

  ghost predicate NonNegativeSizes(qrs: seq<Drawing>) {
    forall j :: 0 <= j < |qrs| ==> qrs[j].width >= 0.0 && qrs[j].height >= 0.0
  }

  ghost predicate HeightsNonIncreasing(qrs: seq<Drawing>) {
    forall j :: 0 < j < |qrs| ==> qrs[j].height <= qrs[j - 1].height
  }

  /** `j` starts a page other than the first. */
  ghost predicate StartsPage(pages: seq<PageRange>, j: nat) {
    exists p :: 0 < p < |pages| && pages[p].start == j
  }

  lemma StartsPageAppend(pages: seq<PageRange>, page: PageRange, j: nat)
    ensures StartsPage(pages + [page], j) <==> StartsPage(pages, j) || (|pages| > 0 && page.start == j)
  {
    var longer := pages + [page];
    if StartsPage(longer, j) {
      var p :| 0 < p < |longer| && longer[p].start == j;
      if p < |pages| {
        assert pages[p].start == j;
      }
    }
    if StartsPage(pages, j) {
      var p :| 0 < p < |pages| && pages[p].start == j;
      assert longer[p].start == j;
    }
    if |pages| > 0 && page.start == j {
      assert longer[|pages|].start == j;
    }
  }

  /** What a successful layout satisfies: one position per code inside the region, placed by the cursor rules. */
  ghost predicate LaidOut(qrs: seq<Drawing>, minY: real, l: Layout) {
    && |l.positions| == |qrs|
    && PartitionsCodes(l.pageQrs, |qrs|)
    && (forall j :: 0 <= j < |qrs| ==> InsideRegion(l.positions[j], qrs[j], minY))
    && (|qrs| > 0 ==> l.positions[0] == Position(START_X_PX, START_Y_PX))
    && (forall j :: 0 < j < |qrs| ==>
          l.positions[j] == Next(l.positions[j - 1], qrs[j - 1], MoveFor(l.positions[j - 1], qrs[j - 1], qrs[j], minY)))
    && (forall j :: 0 < j < |qrs| ==>
          (StartsPage(l.pageQrs, j) <==> MoveFor(l.positions[j - 1], qrs[j - 1], qrs[j], minY) == NewPage))
  }

  /**
   * `_get_qr_positions_per_page`. A successful layout is described by
   * `LaidOut`; codes sorted by non-increasing height that each fit on a blank
   * page always succeed; with non-negative sizes a code that does not fit
   * on a blank page makes the layout fail; and a failure names the first
   * code that lies outside the region where the cursor rules put it.
   */
  method GetQrPositionsPerPage(qrs: seq<Drawing>, includeText: bool) returns (r: Result<Layout, LayoutError>)
    ensures r.Ok? ==> LaidOut(qrs, MinY(includeText), r.value)
    ensures (forall j :: 0 <= j < |qrs| ==> FitsBlankPage(qrs[j], MinY(includeText))) && HeightsNonIncreasing(qrs) ==> r.Ok?
    ensures r.Ok? && NonNegativeSizes(qrs) ==> forall j :: 0 <= j < |qrs| ==> FitsBlankPage(qrs[j], MinY(includeText))
    ensures r.Err? ==> r.error.index < |qrs|
    ensures r.Err? && r.error.index < |qrs| ==>
      exists ps: seq<Position>, x: real, y: real, h: real ::
        && PlacedSoFar(qrs, MinY(includeText), ps, r.error.index)
        && CursorAfter(qrs, ps, r.error.index, x, y, h)
        && !InsideRegion(CursorPosition(x, y, h, CursorMove(x, y, h, qrs[r.error.index], MinY(includeText))), qrs[r.error.index], MinY(includeText))
  {
    var minYPx := MinY(includeText);
    var pageQrPositions: seq<Position> := [];
    var pageQrs: seq<PageRange> := [];
    var curX := START_X_PX;
    var curY := START_Y_PX;
    var lastH := 0.0;
    var qrCounter: nat := 0;
    for ii := 0 to |qrs|
      invariant |pageQrPositions| == ii
      invariant CursorAfter(qrs, pageQrPositions, ii, curX, curY, lastH)
      invariant PlacedSoFar(qrs, minYPx, pageQrPositions, ii)
      invariant PagedSoFar(qrs, minYPx, pageQrPositions, pageQrs, qrCounter, ii)
      invariant BoundedSoFar(qrs, minYPx, ii, curX, curY, lastH)
    {
      var move, pos, fits := PlaceCode(curX, curY, lastH, qrs[ii], minYPx);
      SortedCodesFit(qrs, minYPx, pageQrPositions, ii, curX, curY, lastH);
      if !fits {
        return Err(UnableToFit(ii));
      }
      ghost var closed, open := pageQrs, qrCounter;
      if move == NewPage {
        pageQrs := pageQrs + [PageRange(qrCounter, ii)];
        qrCounter := ii;
      }
      LayoutStep(qrs, minYPx, pageQrPositions, closed, open, ii, curX, curY, lastH, move, pos);
      pageQrPositions := pageQrPositions + [pos];
      curX := pos.x + qrs[ii].width + QR_MARGIN_PX;
      curY := pos.y;
      lastH := qrs[ii].height;
    }
    pageQrs := pageQrs + [PageRange(qrCounter, |qrs|)];
    FinishedLayout(qrs, minYPx, pageQrPositions, pageQrs);
    r := Ok(Layout(pageQrs, pageQrPositions));
  }

  /** The cursor after `ii` codes: at the top left for none, right of the last code otherwise. */
  ghost predicate CursorAfter(qrs: seq<Drawing>, positions: seq<Position>, ii: nat, curX: real, curY: real, lastH: real) {
    && ii <= |qrs| && |positions| == ii
    && (ii == 0 ==> curX == START_X_PX && curY == START_Y_PX && lastH == 0.0)
    && (ii > 0 ==>
          && curX == positions[ii - 1].x + qrs[ii - 1].width + QR_MARGIN_PX
          && curY == positions[ii - 1].y
          && lastH == qrs[ii - 1].height)
  }

  /** The first `ii` codes are placed inside the region, by the cursor rules. */
  ghost predicate PlacedSoFar(qrs: seq<Drawing>, minY: real, positions: seq<Position>, ii: nat) {
    && ii <= |qrs| && |positions| == ii
    && (forall j :: 0 <= j < ii ==> InsideRegion(positions[j], qrs[j], minY))
    && (ii > 0 ==> positions[0] == Position(START_X_PX, START_Y_PX))
    && (forall j :: 0 < j < ii ==>
          positions[j] == Next(positions[j - 1], qrs[j - 1], MoveFor(positions[j - 1], qrs[j - 1], qrs[j], minY)))
  }

  /** The closed pages and the open one from `open` partition the first `ii` codes, a page starting exactly where the rules start one. */
  ghost predicate PagedSoFar(qrs: seq<Drawing>, minY: real, positions: seq<Position>, closed: seq<PageRange>, open: nat, ii: nat) {
    && ii <= |qrs| && |positions| == ii
    && PartitionsCodes(closed + [PageRange(open, ii)], ii)
    && (ii == 0 ==> closed == [])
    && (forall p :: 0 <= p < |closed| ==> closed[p].end <= open)
    && (forall j :: 0 < j < ii ==>
          (StartsPage(closed + [PageRange(open, ii)], j) <==> MoveFor(positions[j - 1], qrs[j - 1], qrs[j], minY) == NewPage))
  }

  /** With non-negative sizes the cursor stays right of the left edge and below the top, so every placed code fits a blank page. */
  ghost predicate BoundedSoFar(qrs: seq<Drawing>, minY: real, ii: nat, curX: real, curY: real, lastH: real) {
    && ii <= |qrs|
    && (NonNegativeSizes(qrs) ==>
          && START_X_PX <= curX && curY <= START_Y_PX && lastH >= 0.0
          && forall j :: 0 <= j < ii ==> FitsBlankPage(qrs[j], minY))
  }

  /** Codes sorted by non-increasing height that each fit a blank page always fit where the cursor puts them. */
  lemma SortedCodesFit(qrs: seq<Drawing>, minY: real, positions: seq<Position>, ii: nat, curX: real, curY: real, lastH: real)
    requires ii < |qrs|
    requires CursorAfter(qrs, positions, ii, curX, curY, lastH) && PlacedSoFar(qrs, minY, positions, ii)
    ensures (forall j :: 0 <= j < |qrs| ==> FitsBlankPage(qrs[j], minY)) && HeightsNonIncreasing(qrs) ==>
      InsideRegion(CursorPosition(curX, curY, lastH, CursorMove(curX, curY, lastH, qrs[ii], minY)), qrs[ii], minY)
  {
    if ii > 0 {
      assert InsideRegion(positions[ii - 1], qrs[ii - 1], minY);
    }
  }

  /** One code placed: the loop invariant holds again, for `ii + 1` codes. */
  lemma LayoutStep(qrs: seq<Drawing>, minY: real, positions: seq<Position>, closed: seq<PageRange>, open: nat, ii: nat,
                   curX: real, curY: real, lastH: real, move: Move, pos: Position)
    requires ii < |qrs|
    requires CursorAfter(qrs, positions, ii, curX, curY, lastH)
    requires PlacedSoFar(qrs, minY, positions, ii)
    requires PagedSoFar(qrs, minY, positions, closed, open, ii)
    requires BoundedSoFar(qrs, minY, ii, curX, curY, lastH)
    requires move == CursorMove(curX, curY, lastH, qrs[ii], minY)
    requires pos == CursorPosition(curX, curY, lastH, move)
    requires InsideRegion(pos, qrs[ii], minY)
    ensures var positions' := positions + [pos];
      var curX', curY', lastH' := pos.x + qrs[ii].width + QR_MARGIN_PX, pos.y, qrs[ii].height;
      && CursorAfter(qrs, positions', ii + 1, curX', curY', lastH')
      && PlacedSoFar(qrs, minY, positions', ii + 1)
      && (move == NewPage ==> PagedSoFar(qrs, minY, positions', closed + [PageRange(open, ii)], ii, ii + 1))
      && (move != NewPage ==> PagedSoFar(qrs, minY, positions', closed, open, ii + 1))
      && BoundedSoFar(qrs, minY, ii + 1, curX', curY', lastH')
  {
    assert ii == 0 ==> move == SameRow;
    assert ii > 0 ==> move == MoveFor(positions[ii - 1], qrs[ii - 1], qrs[ii], minY);
    CursorStep(qrs, minY, positions, ii, curX, curY, lastH, move, pos);
    PlacedStep(qrs, minY, positions, ii, pos);
    PageStep(qrs, minY, positions, closed, open, ii, move, pos);
  }

  lemma CursorStep(qrs: seq<Drawing>, minY: real, positions: seq<Position>, ii: nat,
                   curX: real, curY: real, lastH: real, move: Move, pos: Position)
    requires ii < |qrs|
    requires CursorAfter(qrs, positions, ii, curX, curY, lastH)
    requires BoundedSoFar(qrs, minY, ii, curX, curY, lastH)
    requires move == CursorMove(curX, curY, lastH, qrs[ii], minY)
    requires pos == CursorPosition(curX, curY, lastH, move)
    requires InsideRegion(pos, qrs[ii], minY)
    ensures var curX', curY', lastH' := pos.x + qrs[ii].width + QR_MARGIN_PX, pos.y, qrs[ii].height;
      && CursorAfter(qrs, positions + [pos], ii + 1, curX', curY', lastH')
      && BoundedSoFar(qrs, minY, ii + 1, curX', curY', lastH')
  {
  }

  lemma PageStep(qrs: seq<Drawing>, minY: real, positions: seq<Position>, closed: seq<PageRange>, open: nat, ii: nat,
                 move: Move, pos: Position)
    requires ii < |qrs|
    requires PagedSoFar(qrs, minY, positions, closed, open, ii)
    requires ii == 0 ==> move == SameRow
    requires ii > 0 ==> move == MoveFor(positions[ii - 1], qrs[ii - 1], qrs[ii], minY)
    ensures move == NewPage ==> PagedSoFar(qrs, minY, positions + [pos], closed + [PageRange(open, ii)], ii, ii + 1)
    ensures move != NewPage ==> PagedSoFar(qrs, minY, positions + [pos], closed, open, ii + 1)
  {
    var before := closed + [PageRange(open, ii)];
    var after := if move == NewPage then before + [PageRange(ii, ii + 1)] else closed + [PageRange(open, ii + 1)];
    assert before[..|before| - 1] == closed;
    PagesGrow(before, after, move == NewPage, ii);
    PagedStep(qrs, minY, positions, closed, open, ii, pos, after, move == NewPage);
  }

  lemma PlacedStep(qrs: seq<Drawing>, minY: real, positions: seq<Position>, ii: nat, pos: Position)
    requires ii < |qrs| && PlacedSoFar(qrs, minY, positions, ii)
    requires InsideRegion(pos, qrs[ii], minY)
    requires ii == 0 ==> pos == Position(START_X_PX, START_Y_PX)
    requires ii > 0 ==> pos == Next(positions[ii - 1], qrs[ii - 1], MoveFor(positions[ii - 1], qrs[ii - 1], qrs[ii], minY))
    ensures PlacedSoFar(qrs, minY, positions + [pos], ii + 1)
  {
    var positions' := positions + [pos];
    assert forall j :: 0 <= j < ii ==> positions'[j] == positions[j];
  }

  lemma PagedStep(qrs: seq<Drawing>, minY: real, positions: seq<Position>, closed: seq<PageRange>, open: nat, ii: nat,
                  pos: Position, after: seq<PageRange>, newPage: bool)
    requires ii < |qrs| && PagedSoFar(qrs, minY, positions, closed, open, ii)
    requires newPage ==> ii > 0 && after == (closed + [PageRange(open, ii)]) + [PageRange(ii, ii + 1)]
    requires !newPage ==> after == closed + [PageRange(open, ii + 1)]
    requires ii > 0 ==> (newPage <==> MoveFor(positions[ii - 1], qrs[ii - 1], qrs[ii], minY) == NewPage)
    requires PartitionsCodes(after, ii + 1)
    requires forall j :: 0 < j < ii ==> (StartsPage(after, j) <==> StartsPage(closed + [PageRange(open, ii)], j))
    requires ii > 0 ==> (StartsPage(after, ii) <==> newPage)
    ensures newPage ==> PagedSoFar(qrs, minY, positions + [pos], closed + [PageRange(open, ii)], ii, ii + 1)
    ensures !newPage ==> PagedSoFar(qrs, minY, positions + [pos], closed, open, ii + 1)
  {
    var positions' := positions + [pos];
    assert forall j :: 0 <= j < ii ==> positions'[j] == positions[j];
    if newPage {
      var closed' := closed + [PageRange(open, ii)];
      forall p | 0 <= p < |closed'|
        ensures closed'[p].end <= ii
      {
        if p < |closed| {
          assert closed[p].end <= open;
        }
      }
    }
  }

  /** The invariant after the last code, with the open page closed at `len(reportlab_qrs)`, is `LaidOut`. */
  lemma FinishedLayout(qrs: seq<Drawing>, minY: real, positions: seq<Position>, pages: seq<PageRange>)
    requires PlacedSoFar(qrs, minY, positions, |qrs|)
    requires |pages| > 0 && PagedSoFar(qrs, minY, positions, pages[..|pages| - 1], pages[|pages| - 1].start, |qrs|)
    requires pages[|pages| - 1].end == |qrs|
    ensures LaidOut(qrs, minY, Layout(pages, positions))
  {
    assert pages == pages[..|pages| - 1] + [PageRange(pages[|pages| - 1].start, |qrs|)];
  }

  /** Without codes the only layout is one empty page and no positions. */
  lemma EmptyLayout(minY: real, l: Layout)
    requires LaidOut([], minY, l)
    ensures l == Layout([PageRange(0, 0)], [])
  {
  }

  /**
   * The loop body of `_get_qr_positions_per_page` for one code: where the
   * cursor moves, where the code goes, and whether it fits there.
   */
  method PlaceCode(curX: real, curY: real, lastH: real, qr: Drawing, minY: real) returns (move: Move, pos: Position, fits: bool)
    ensures move == CursorMove(curX, curY, lastH, qr, minY)
    ensures pos == CursorPosition(curX, curY, lastH, move)
    ensures fits <==> InsideRegion(pos, qr, minY)
  {
    var x := curX;
    var y := curY;
    move := SameRow;
    var enoughHorizontalSpace := x + qr.width <= MAX_X_PX;
    if !enoughHorizontalSpace {
      // start a new row, typewriter style
      x := START_X_PX;
      y := y - (lastH + QR_MARGIN_PX);
      move := NewRow;
      var enoughVerticalSpace := y - qr.height >= minY;
      if !enoughVerticalSpace {
        y := START_Y_PX;
        move := NewPage;
      }
    }
    // the reference point may have moved: check again
    pos := Position(x, y);
    fits := x + qr.width <= MAX_X_PX && y - qr.height >= minY;
  }

  /**
   * One step of the page bookkeeping: the open page either grows by the code
   * `ii`, or is closed at `ii` and a new page opens with it.
   */
  lemma PagesGrow(before: seq<PageRange>, after: seq<PageRange>, newPage: bool, ii: nat)
    requires |before| > 0 && PartitionsCodes(before, ii)
    requires ii == 0 ==> |before| == 1
    requires forall p :: 0 <= p < |before| - 1 ==> before[p].end <= before[|before| - 1].start
    requires !newPage ==> after == before[..|before| - 1] + [PageRange(before[|before| - 1].start, ii + 1)]
    requires newPage ==> ii > 0 && after == before + [PageRange(ii, ii + 1)]
    ensures PartitionsCodes(after, ii + 1)
    ensures forall p :: 0 <= p < |after| - 1 ==> after[p].end <= after[|after| - 1].start
    ensures forall j :: 0 < j < ii ==> (StartsPage(after, j) <==> StartsPage(before, j))
    ensures ii > 0 ==> (StartsPage(after, ii) <==> newPage)
  {
    if newPage {
      NewPageGrows(before, ii);
    } else {
      SamePageGrows(before, ii);
    }
  }

  /** Opening a page for code `ii` adds a page start at `ii` and no other. */
  lemma NewPageGrows(before: seq<PageRange>, ii: nat)
    requires |before| > 0 && PartitionsCodes(before, ii) && ii > 0
    ensures var after := before + [PageRange(ii, ii + 1)];
      && PartitionsCodes(after, ii + 1)
      && (forall p :: 0 <= p < |after| - 1 ==> after[p].end <= after[|after| - 1].start)
      && (forall j :: 0 < j < ii ==> (StartsPage(after, j) <==> StartsPage(before, j)))
      && StartsPage(after, ii)
  {
    var after := before + [PageRange(ii, ii + 1)];
    PartitionEnds(before, ii);
    forall j: nat
      ensures StartsPage(after, j) <==> StartsPage(before, j) || j == ii
    {
      StartsPageAppend(before, PageRange(ii, ii + 1), j);
    }
  }

  /** Every page of a partition of `0..n` ends by `n`. */
  lemma PartitionEnds(pages: seq<PageRange>, n: nat)
    requires PartitionsCodes(pages, n)
    ensures forall p :: 0 <= p < |pages| ==> pages[p].start <= pages[p].end <= n
  {
    forall p | 0 <= p < |pages|
      ensures pages[p].end <= n
    {
      PartitionEndsFrom(pages, n, p);
    }
  }

  lemma {:induction false} PartitionEndsFrom(pages: seq<PageRange>, n: nat, p: nat)
    requires PartitionsCodes(pages, n) && p < |pages|
    ensures pages[p].end <= n
    decreases |pages| - p
  {
    if p < |pages| - 1 {
      PartitionEndsFrom(pages, n, p + 1);
    }
  }

  /** Extending the open page to code `ii` adds no page start. */
  lemma SamePageGrows(before: seq<PageRange>, ii: nat)
    requires |before| > 0 && PartitionsCodes(before, ii)
    requires ii == 0 ==> |before| == 1
    requires forall p :: 0 <= p < |before| - 1 ==> before[p].end <= before[|before| - 1].start
    ensures var after := before[..|before| - 1] + [PageRange(before[|before| - 1].start, ii + 1)];
      && PartitionsCodes(after, ii + 1)
      && (forall p :: 0 <= p < |after| - 1 ==> after[p].end <= after[|after| - 1].start)
      && (forall j :: 0 < j < ii ==> (StartsPage(after, j) <==> StartsPage(before, j)))
      && (ii > 0 ==> !StartsPage(after, ii))
  {
    var closed := before[..|before| - 1];
    var open := before[|before| - 1];
    var after := closed + [PageRange(open.start, ii + 1)];
    assert before == closed + [open];
    forall j: nat
      ensures StartsPage(before, j) <==> StartsPage(closed, j) || (|closed| > 0 && open.start == j)
      ensures StartsPage(after, j) <==> StartsPage(closed, j) || (|closed| > 0 && open.start == j)
    {
      StartsPageAppend(closed, open, j);
      StartsPageAppend(closed, PageRange(open.start, ii + 1), j);
    }
    if ii > 0 {
      forall p | 0 <= p < |closed|
        ensures closed[p].start != ii
      {
        assert closed[p].start < closed[p].end <= open.start <= ii;
      }
      assert open.start < ii;
    }
  }

  // -----------------------------------------------------------------------
  // _split_text_across_pages

  /** A Python slice bound: a negative bound counts from the end, and the result is clamped to `0..len`. */
  function SliceBound(i: int, len: nat): (b: nat)
    ensures b <= len
    ensures 0 <= i <= len ==> b == i
    ensures i < 0 && len + i >= 0 ==> b == len + i
    ensures i > len ==> b == len
    ensures len + i < 0 ==> b == 0
  {
    var j := if i < 0 then len + i else i;
    if j < 0 then 0 else if j > len then len else j
  }

  /** `s[lo:hi]` */
  function PySlice<T>(s: seq<T>, lo: int, hi: int): (r: seq<T>)
    ensures SliceBound(lo, |s|) <= SliceBound(hi, |s|) ==> r == s[SliceBound(lo, |s|)..SliceBound(hi, |s|)]
    ensures SliceBound(lo, |s|) > SliceBound(hi, |s|) ==> r == []
  {
    var a := SliceBound(lo, |s|);
    var b := SliceBound(hi, |s|);
    if a <= b then s[a..b] else []
  }

  /** `[*list(range(0, length, MAX_CHAR_LIMIT)), -1]` */
  function Breakpoints(length: nat): (bps: seq<int>)
    ensures |bps| == (length + MAX_CHAR_LIMIT - 1) / MAX_CHAR_LIMIT + 1
    ensures forall i :: 0 <= i < |bps| - 1 ==> bps[i] == i * MAX_CHAR_LIMIT
    ensures bps[|bps| - 1] == -1
  {
    seq((length + MAX_CHAR_LIMIT - 1) / MAX_CHAR_LIMIT, i => i * MAX_CHAR_LIMIT) + [-1]
  }

  /** `repr(text)[1:]`: `repr` is passed in already applied. */
  function CaptionText(reprText: string): string {
    PySlice(reprText, 1, |reprText|)
  }

  /** `_split_text_across_pages`, from the text's `repr`. */
  function SplitTextAcrossPages(reprText: string): seq<string> {
    var captionText := CaptionText(reprText);
    var breakpoints := Breakpoints(|captionText|);
    seq(|breakpoints| - 1, ii requires 0 <= ii < |breakpoints| - 1 =>
      PySlice(captionText, breakpoints[ii], breakpoints[ii + 1]))
  }

  /** The number of break points before the final `-1`. */
  lemma CeilDivBounds(length: nat)
    ensures var count := (length + MAX_CHAR_LIMIT - 1) / MAX_CHAR_LIMIT;
      && (length == 0 ==> count == 0)
      && (length > 0 ==> (count - 1) * MAX_CHAR_LIMIT < length <= count * MAX_CHAR_LIMIT && count == (length - 1) / MAX_CHAR_LIMIT + 1)
  {
    var m := MAX_CHAR_LIMIT;
    var q := (length + m - 1) / m;
    var rem := (length + m - 1) % m;
    assert length + m - 1 == q * m + rem && 0 <= rem < m;
    if length > 0 {
      var q' := (length - 1) / m;
      var rem' := (length - 1) % m;
      assert length - 1 == q' * m + rem' && 0 <= rem' < m;
      assert length + m - 1 == (q' + 1) * m + rem';
    }
  }

  /** `count` break points suit a caption of this length. */
  ghost predicate CountFits(caption: string, count: nat) {
    |caption| > 0 && (count - 1) * MAX_CHAR_LIMIT < |caption| <= count * MAX_CHAR_LIMIT
  }

  /** Where chunk `j` ends: at the next break point, or before the final character for the last chunk. */
  function ChunkEnd(caption: string, j: nat, count: nat): (e: nat)
    requires CountFits(caption, count) && j < count
    ensures j * MAX_CHAR_LIMIT <= e < |caption|
  {
    if j + 1 < count then (j + 1) * MAX_CHAR_LIMIT else |caption| - 1
  }

  /** The chunks from break point `k` on: full chunks, then the rest without the final character. */
  function ChunksFrom(caption: string, k: nat, count: nat): (r: seq<string>)
    requires CountFits(caption, count) && k <= count
    ensures |r| == count - k
    ensures forall j :: 0 <= j < |r| ==> r[j] == caption[(k + j) * MAX_CHAR_LIMIT..ChunkEnd(caption, k + j, count)]
    decreases count - k
  {
    if k == count then []
    else
      var rest := ChunksFrom(caption, k + 1, count);
      [caption[k * MAX_CHAR_LIMIT..ChunkEnd(caption, k, count)]] + rest
  }

  lemma {:induction false} ChunksFromJoin(caption: string, k: nat, count: nat)
    requires CountFits(caption, count) && k < count
    ensures Join(ChunksFrom(caption, k, count)) == caption[k * MAX_CHAR_LIMIT..|caption| - 1]
    decreases count - k
  {
    var lo := k * MAX_CHAR_LIMIT;
    if k + 1 < count {
      var hi := (k + 1) * MAX_CHAR_LIMIT;
      ChunksFromJoin(caption, k + 1, count);
      assert caption[lo..|caption| - 1] == caption[lo..hi] + caption[hi..|caption| - 1];
    } else {
      assert ChunksFrom(caption, k, count) == [caption[lo..|caption| - 1]];
      assert Join([caption[lo..|caption| - 1]]) == caption[lo..|caption| - 1] + Join<char>([]);
    }
  }

  /** Chunk `i` is the slice between break points `i` and `i + 1`, the last break point being `-1`. */
  lemma ChunksFromAt(caption: string, count: nat, i: nat)
    requires CountFits(caption, count) && i < count
    ensures ChunksFrom(caption, 0, count)[i] ==
      PySlice(caption, i * MAX_CHAR_LIMIT, if i + 1 < count then (i + 1) * MAX_CHAR_LIMIT else -1)
  {
    var lo := i * MAX_CHAR_LIMIT;
    if i + 1 < count {
      var hi := (i + 1) * MAX_CHAR_LIMIT;
      assert SliceBound(lo, |caption|) == lo && SliceBound(hi, |caption|) == hi;
    } else {
      assert SliceBound(lo, |caption|) == lo && SliceBound(-1, |caption|) == |caption| - 1;
    }
  }

  /** Every chunk but the last is full; the last is shorter. */
  lemma ChunkLengths(caption: string, count: nat, i: nat)
    requires CountFits(caption, count) && i < count
    ensures i + 1 < count ==> |ChunksFrom(caption, 0, count)[i]| == MAX_CHAR_LIMIT
    ensures i + 1 == count ==> |ChunksFrom(caption, 0, count)[i]| < MAX_CHAR_LIMIT
  {
    ChunksFromAt(caption, count, i);
    assert i * MAX_CHAR_LIMIT <= (count - 1) * MAX_CHAR_LIMIT;
    if i + 1 < count {
      assert (i + 1) * MAX_CHAR_LIMIT <= (count - 1) * MAX_CHAR_LIMIT;
    }
  }

  /** The chunks of a caption: all full but the last, which is shorter, joining to the caption without its final character. */
  lemma ChunksFromShape(caption: string, count: nat)
    requires CountFits(caption, count)
    ensures var pages := ChunksFrom(caption, 0, count);
      && |pages| == count
      && (forall i :: 0 <= i < count - 1 ==> |pages[i]| == MAX_CHAR_LIMIT)
      && |pages[count - 1]| < MAX_CHAR_LIMIT
      && Join(pages) == caption[..|caption| - 1]
  {
    var pages := ChunksFrom(caption, 0, count);
    forall i | 0 <= i < count
      ensures i + 1 < count ==> |pages[i]| == MAX_CHAR_LIMIT
      ensures i + 1 == count ==> |pages[i]| < MAX_CHAR_LIMIT
    {
      ChunkLengths(caption, count, i);
    }
    ChunksFromJoin(caption, 0, count);
  }

  /** The comprehension over the break points yields the chunks. */
  lemma SplitTextChunks(reprText: string)
    requires |CaptionText(reprText)| > 0
    ensures var caption := CaptionText(reprText);
      var count := (|caption| + MAX_CHAR_LIMIT - 1) / MAX_CHAR_LIMIT;
      && CountFits(caption, count)
      && SplitTextAcrossPages(reprText) == ChunksFrom(caption, 0, count)
  {
    var caption := CaptionText(reprText);
    var pages := SplitTextAcrossPages(reprText);
    var count := (|caption| + MAX_CHAR_LIMIT - 1) / MAX_CHAR_LIMIT;
    CeilDivBounds(|caption|);
    forall i | 0 <= i < count
      ensures pages[i] == ChunksFrom(caption, 0, count)[i]
    {
      ChunksFromAt(caption, count, i);
    }
  }

  /**
   * The caption pages: none for an empty caption; otherwise every page but
   * the last holds exactly `MAX_CHAR_LIMIT` characters, the last fewer, and
   * together they are the caption without its final character (the
   * closing quote of the `repr`).
   */
  lemma SplitTextShape(reprText: string)
    ensures var caption := CaptionText(reprText);
      var pages := SplitTextAcrossPages(reprText);
      && (|caption| == 0 ==> pages == [])
      && (|caption| > 0 ==>
            && |pages| == (|caption| - 1) / MAX_CHAR_LIMIT + 1
            && (forall i :: 0 <= i < |pages| - 1 ==> |pages[i]| == MAX_CHAR_LIMIT)
            && |pages[|pages| - 1]| < MAX_CHAR_LIMIT
            && Join(pages) == caption[..|caption| - 1])
  {
    var caption := CaptionText(reprText);
    CeilDivBounds(|caption|);
    if |caption| > 0 {
      SplitTextChunks(reprText);
      ChunksFromShape(caption, (|caption| + MAX_CHAR_LIMIT - 1) / MAX_CHAR_LIMIT);
    }
  }
}
