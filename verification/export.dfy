/**
 * The loop of `exportAnnotatedPdf`: every annotation becomes one
 * `drawRectangle` call on the page of the output document, in PDF
 * points with the origin at the bottom-left corner of the page.
 */
module Export {

  import opened Wrappers
  import opened Records
  import opened Geometry

  /** A page's native size in PDF points, as pdf.js reports it at scale 1. */
  datatype Viewport = Viewport(width: PosReal, height: PosReal)

  /** A `pdfPage.drawRectangle` call on the page with zero-based index `pageIndex` (fill colour fixed). */
  datatype DrawOp = DrawRectangle(pageIndex: int, x: real, y: real, width: real, height: real)

  /**
   * Outcome of the loop.  `GetPageFailed` is pdf-lib's `getPage`
   * throwing for an index outside the document, which rejects the whole
   * export; nothing is saved.
   */
  datatype ExportResult = Drawn(ops: seq<DrawOp>) | GetPageFailed(page: int)

  /** Fraction of the page's larger dimension used as the side of a marker square. */
  const MarkerFraction: real := 0.02

  /** A point in PDF points. */
  datatype PdfPoint = PdfPoint(x: real, y: real)

  /** Percentages of the page box to PDF points: x scales, y scales and flips. */
  function ToPdfPoint(xPercent: real, yPercent: real, vp: Viewport): PdfPoint {
    PdfPoint(xPercent / 100.0 * vp.width, vp.height - yPercent / 100.0 * vp.height)
  }

  /** The flip is undone by `(1 - y / H) * 100`, and `x / W * 100` undoes the horizontal scale. */
  lemma ToPdfPointInverse(xPercent: real, yPercent: real, vp: Viewport)
    ensures ToPdfPoint(xPercent, yPercent, vp).x / vp.width * 100.0 == xPercent
    ensures (1.0 - ToPdfPoint(xPercent, yPercent, vp).y / vp.height) * 100.0 == yPercent
  {
    var a := 1.0 - yPercent / 100.0;
    var y := ToPdfPoint(xPercent, yPercent, vp).y;
    assert y == vp.height * a;
    assert y / vp.height == a;
  }

  /** A position inside the page box lands on the page, and only such a position does; the top edge maps to `y = H`. */
  lemma ToPdfPointOnPage(xPercent: real, yPercent: real, vp: Viewport)
    ensures 0.0 <= yPercent <= 100.0 <==> 0.0 <= ToPdfPoint(xPercent, yPercent, vp).y <= vp.height
    ensures 0.0 <= xPercent <= 100.0 <==> 0.0 <= ToPdfPoint(xPercent, yPercent, vp).x <= vp.width
    ensures ToPdfPoint(xPercent, 0.0, vp).y == vp.height && ToPdfPoint(xPercent, 100.0, vp).y == 0.0
  {
    var pt := ToPdfPoint(xPercent, yPercent, vp);
    FractionOnPage(xPercent, vp.width, pt.x);
    FractionOnPage(100.0 - yPercent, vp.height, pt.y);
    assert ToPdfPoint(xPercent, 100.0, vp).y == vp.height - 1.0 * vp.height;
  }

  /** `v = p / 100 * size` lies in [0, size] exactly when `p` lies in [0, 100]. */
  lemma FractionOnPage(p: real, size: PosReal, v: real)
    requires v == p / 100.0 * size
    ensures 0.0 <= p <= 100.0 <==> 0.0 <= v <= size
  {
    ScaleBounds(size, p / 100.0);
  }

  /** Scaling by a positive factor keeps a fraction inside [0, 1], and only such a fraction. */
  lemma ScaleBounds(h: real, t: real)
    requires h > 0.0
    ensures 0.0 <= h * t <==> 0.0 <= t
    ensures h * t <= h <==> t <= 1.0
  {
    if t < 0.0 {
      assert h * t < 0.0;
    }
    if t > 1.0 {
      assert h * t - h == h * (t - 1.0);
      assert h * (t - 1.0) > 0.0;
    } else {
      assert h - h * t == h * (1.0 - t);
      assert h * (1.0 - t) >= 0.0;
    }
  }

  /** The square drawn for one annotation: side 2% of the larger page dimension, centred on its anchor. */
  function MarkerFor(r: Record, vp: Viewport): (op: DrawOp)
    ensures op.pageIndex == r.page - 1
    ensures op.width == op.height == MarkerFraction * Max(vp.width, vp.height)
    ensures PdfPoint(op.x + op.width / 2.0, op.y + op.height / 2.0) == ToPdfPoint(r.xPercent, r.yPercent, vp)
  {
    var pt := ToPdfPoint(r.xPercent, r.yPercent, vp);
    var size := Max(vp.width, vp.height) * MarkerFraction;
    DrawRectangle(r.page - 1, pt.x - size / 2.0, pt.y - size / 2.0, size, size)
  }

  /**
   * What the loop draws when `getPage` never fails: one square per
   * record whose page has a viewport, in list order.
   */
  function Planned(rs: seq<Record>, viewports: map<int, Viewport>): seq<DrawOp>
    decreases |rs|
  {
    if |rs| == 0 then []
    else
      var r := rs[|rs| - 1];
      Planned(rs[..|rs| - 1], viewports) + (if r.page in viewports then [MarkerFor(r, viewports[r.page])] else [])
  }

  /** pdf-lib accepts the zero-based page index. */
  predicate InDocument(page: int, pageCount: nat) {
    0 <= page - 1 < pageCount
  }

  /**
   * The export loop.  `getPage(page - 1)` runs before the viewport
   * lookup, so a record whose page is outside the output document aborts
   * the export; a record whose in-range page has no viewport is skipped.
   */
  method ExportMarkers(rs: seq<Record>, viewports: map<int, Viewport>, pageCount: nat) returns (result: ExportResult)
    ensures result.GetPageFailed? <==> exists k | 0 <= k < |rs| :: !InDocument(rs[k].page, pageCount)
    ensures result.GetPageFailed? ==>
              exists k | 0 <= k < |rs| ::
                && rs[k].page == result.page && !InDocument(rs[k].page, pageCount)
                && forall j | 0 <= j < k :: InDocument(rs[j].page, pageCount)
    ensures result.Drawn? ==> result.ops == Planned(rs, viewports)
  {
    var ops: seq<DrawOp> := [];
    var i := 0;
    while i < |rs|
      invariant 0 <= i <= |rs|
      invariant forall j | 0 <= j < i :: InDocument(rs[j].page, pageCount)
      invariant ops == Planned(rs[..i], viewports)
    {
      var r := rs[i];
      if !InDocument(r.page, pageCount) {
        return GetPageFailed(r.page);
      }
      assert rs[..i + 1][..i] == rs[..i];
      if r.page in viewports {
        ops := ops + [MarkerFor(r, viewports[r.page])];
      }
      i := i + 1;
    }
    assert rs[..i] == rs;
    return Drawn(ops);
  }

  /**
   * When every page has a viewport, the drawing has exactly one square
   * per record, the k-th for the k-th record: nothing is skipped or
   * reordered.
   */
  lemma {:induction false} PlannedCoversAll(rs: seq<Record>, viewports: map<int, Viewport>)
    requires forall k | 0 <= k < |rs| :: rs[k].page in viewports
    ensures |Planned(rs, viewports)| == |rs|
    ensures forall k | 0 <= k < |rs| :: Planned(rs, viewports)[k] == MarkerFor(rs[k], viewports[rs[k].page])
    decreases |rs|
  {
    if |rs| > 0 {
      var init := rs[..|rs| - 1];
      assert forall k | 0 <= k < |init| :: init[k] == rs[k];
      PlannedCoversAll(init, viewports);
    }
  }

  /** Records without a viewport draw nothing, and each of the others draws its own square. */
  lemma {:induction false} PlannedSkipsOnlyMissing(rs: seq<Record>, viewports: map<int, Viewport>)
    ensures |Planned(rs, viewports)| <= |rs|
    ensures forall k | 0 <= k < |rs| && rs[k].page in viewports ::
              MarkerFor(rs[k], viewports[rs[k].page]) in Planned(rs, viewports)
    ensures forall op | op in Planned(rs, viewports) ::
              exists k | 0 <= k < |rs| :: rs[k].page in viewports && op == MarkerFor(rs[k], viewports[rs[k].page])
    decreases |rs|
  {
    if |rs| > 0 {
      var init := rs[..|rs| - 1];
      assert forall k | 0 <= k < |init| :: init[k] == rs[k];
      PlannedSkipsOnlyMissing(init, viewports);
    }
  }
}
