/** Choosing an encoder quality under a size limit, and cutting a tall image into pages; lengths are reals. */
module Imaging {
  import opened Text
  import opened Rounding

  // ---- Largest quality under a target size ----

  const LOWEST: int := 10
  const HIGHEST: int := 95

  /** Whatever the encoder, the chosen quality fits the target and the next higher one does not, or
      nothing was found and even the lowest quality is too large: ten probes always finish. */
  method EncodeUnderTarget(size: int -> nat, target: nat) returns (quality: int)
    ensures LOWEST <= quality <= HIGHEST
    ensures size(quality) > target ==> quality == LOWEST
    ensures size(quality) <= target && quality < HIGHEST ==> size(quality + 1) > target
    ensures NonDecreasing(size) ==> Largest(size, target, quality)
  {
    var low, high := LOWEST, HIGHEST;
    var best: Option<int> := None;
    for n := 0 to 10
      invariant LOWEST <= low <= HIGHEST + 1 && LOWEST - 1 <= high <= HIGHEST && low <= high + 1
      invariant best == if low == LOWEST then None else Some(low - 1)
      invariant low > LOWEST ==> size(low - 1) <= target
      invariant high < HIGHEST ==> size(high + 1) > target
      invariant high - low + 1 <= Remaining(n)
    {
      if low > high { break; }
      Halved(n);
      var q := (low + high) / 2;
      if size(q) <= target {
        best := Some(q);
        low := q + 1;
      } else {
        high := q - 1;
      }
    }
    assert low == high + 1;
    if best.None? { return LOWEST; }
    return best.value;
  }

  /** How many candidate qualities can be left after n probes. */
  function Remaining(n: nat): nat {
    if n == 0 then 86 else Remaining(n - 1) / 2
  }

  lemma Halved(n: nat)
    ensures Remaining(n + 1) == Remaining(n) / 2
    ensures n >= 7 ==> Remaining(n) == 0
    decreases n
  {
    if n > 7 { Halved(n - 1); }
  }

  ghost predicate NonDecreasing(size: int -> nat) {
    forall q, r :: LOWEST <= q <= r <= HIGHEST ==> size(q) <= size(r)
  }

  /** The largest quality that fits the target, or the lowest when none does. */
  ghost predicate Largest(size: int -> nat, target: nat, quality: int) {
    forall q :: LOWEST <= q <= HIGHEST && size(q) <= target ==> size(quality) <= target && q <= quality
  }

  // ---- Pages of a tall image ----

  datatype Refusal = InvalidScale | InvalidSliceHeight | TooManyPages

  /** Rows from `top` up to `bottom`, printed `height` points high. */
  datatype Slice = Slice(top: int, bottom: int, height: real)

  ghost predicate Tiles(slices: seq<Slice>, rows: int) {
    && (slices == [] ==> rows == 0)
    && (slices != [] ==> slices[0].top == 0 && slices[|slices| - 1].bottom == rows)
    && (forall i :: 0 <= i < |slices| ==> slices[i].top < slices[i].bottom)
    && (forall i :: 0 < i < |slices| ==> slices[i - 1].bottom == slices[i].top)
  }

  ghost predicate OnlyOn(slices: seq<Slice>, row: int, i: int)
    requires 0 <= i < |slices|
  {
    && slices[i].top <= row < slices[i].bottom
    && forall j :: 0 <= j < |slices| && slices[j].top <= row < slices[j].bottom ==> j == i
  }

  /** Every row of the image stands on exactly one page. */
  lemma {:induction false} EveryRowOnce(slices: seq<Slice>, rows: int, row: int)
    requires Tiles(slices, rows) && 0 <= row < rows
    ensures exists i :: 0 <= i < |slices| && OnlyOn(slices, row, i)
    decreases |slices|
  {
    var init, last := slices[..|slices| - 1], slices[|slices| - 1];
    if row >= last.top {
      forall j | 0 <= j < |slices| && slices[j].top <= row < slices[j].bottom ensures j == |slices| - 1 {
        if j < |slices| - 1 { Before(slices, rows, j, |slices| - 1); }
      }
      assert OnlyOn(slices, row, |slices| - 1);
    } else {
      if init != [] { assert init[|init| - 1].bottom == last.top; }
      EveryRowOnce(init, last.top, row);
      var i :| 0 <= i < |init| && OnlyOn(init, row, i);
      forall j | 0 <= j < |slices| && slices[j].top <= row < slices[j].bottom ensures j == i {
        if j < |init| { assert slices[j] == init[j]; }
      }
      assert OnlyOn(slices, row, i);
    }
  }

  lemma {:induction false} Before(slices: seq<Slice>, rows: int, i: int, j: int)
    requires Tiles(slices, rows) && 0 <= i < j < |slices|
    ensures slices[i].bottom <= slices[j].top
    decreases j - i
  {
    if i + 1 < j { Before(slices, rows, i + 1, j); }
  }

  lemma Extend(slices: seq<Slice>, rows: int, next: Slice)
    requires Tiles(slices, rows) && next.top == rows < next.bottom
    ensures Tiles(slices + [next], next.bottom)
  {
    var all := slices + [next];
    assert forall i :: 0 <= i < |slices| ==> all[i] == slices[i];
    assert all[|slices|] == next;
  }

  function Ceil(x: real): int { if x == x.Floor as real then x.Floor else x.Floor + 1 }

  function PageCount(height: nat, step: real): int
    requires step > 0.0
  {
    var n := Ceil(height as real / step);
    if n > 1 then n else 1
  }

  /** All rows are cut into consecutive slices, none printed higher than the printable area. */
  method Paginate(width: int, height: nat, innerW: real, innerH: real, maxPages: nat)
    returns (r: Result<seq<Slice>, Refusal>)
    requires width > 0
    ensures innerW <= 0.0 <==> r == Failure(InvalidScale)
    ensures innerW > 0.0 && innerH <= 0.0 <==> r == Failure(InvalidSliceHeight)
    ensures r == Failure(TooManyPages) <==>
            innerW > 0.0 && innerH > 0.0 && Exceeds(width, height, innerW, innerH, maxPages)
    ensures r.Success? ==> Tiles(r.value, height) && |r.value| <= maxPages
    ensures r.Success? ==> forall i :: 0 <= i < |r.value| ==> 0.0 < r.value[i].height <= innerH
    ensures r.Success? ==> innerW > 0.0 && CutInto(r.value, width, height, innerW, innerH)
  {
    var scale := innerW / width as real;
    ScaleSign(innerW, width as real);
    if scale <= 0.0 { return Failure(InvalidScale); }
    var step := innerH / scale;
    ScaleSign(innerH, scale);
    if step <= 0.0 { return Failure(InvalidSliceHeight); }
    assert step * scale == innerH;
    var pages := PageCount(height, step);
    TooMany(width, height, innerW, innerH, scale, step, maxPages);
    if pages > maxPages { return Failure(TooManyPages); }
    var slices := Pages(pages, height, step, scale, innerH);
    CutAtScale(slices, width, height, innerW, innerH, scale, step);
    return Success(slices);
  }

  method Pages(pages: nat, height: nat, step: real, scale: real, ghost limit: real) returns (slices: seq<Slice>)
    requires step > 0.0 && scale > 0.0 && pages == PageCount(height, step) && step * scale == limit
    ensures Tiles(slices, height) && |slices| <= pages
    ensures forall i :: 0 <= i < |slices| ==> 0.0 < slices[i].height <= limit
    ensures AllPages(slices, step, scale, height)
  {
    slices := [];
    for i := 0 to pages
      invariant |slices| <= i
      invariant Tiles(slices, Cut(Times(i, step), height))
      invariant forall j :: 0 <= j < |slices| ==> 0.0 < slices[j].height <= limit
      invariant AllPages(slices, step, scale, height)
    {
      TopInside(i, step, height);
      var page := Page(i, height, step, scale, limit);
      if page.bottom <= page.top { continue; }
      Extend(slices, page.top, page);
      OneMorePage(slices, page, i, step, scale, height);
      slices := slices + [page];
    }
    LastCut(pages, step, height);
  }

  /** The n-th page of `step` rows: its ends rounded to whole rows, printed at the scale. */
  predicate IsPage(s: Slice, n: nat, step: real, scale: real, height: nat) {
    var top, bottom := Rows(n, step), Bottom(Rows(n + 1, step), height);
    s.top == Round(top) && s.bottom == Round(bottom) && s.height == Printed(bottom - top, scale)
  }

  function Printed(rows: real, scale: real): real { rows * scale }

  function Rows(pages: nat, step: real): real { pages as real * step }

  ghost predicate AllPages(slices: seq<Slice>, step: real, scale: real, height: nat) {
    forall i :: 0 <= i < |slices| ==> SomePage(slices[i], step, scale, height)
  }

  ghost predicate SomePage(s: Slice, step: real, scale: real, height: nat) {
    exists n: nat :: IsPage(s, n, step, scale, height)
  }

  lemma PageIs(s: Slice, n: nat, step: real, scale: real, height: nat)
    requires s.top == Round(Times(n, step)) && s.bottom == Round(Bottom(Times(n + 1, step), height))
    requires s.height == Printed(Bottom(Times(n + 1, step), height) - Times(n, step), scale)
    ensures IsPage(s, n, step, scale, height)
  {
    assert Times(n, step) == Rows(n, step) by { TimesIs(n, step); }
    assert Times(n + 1, step) == Rows(n + 1, step) by { TimesIs(n + 1, step); }
  }

  lemma OneMorePage(slices: seq<Slice>, s: Slice, n: nat, step: real, scale: real, height: nat)
    requires AllPages(slices, step, scale, height) && IsPage(s, n, step, scale, height)
    ensures AllPages(slices + [s], step, scale, height)
  {
    assert SomePage(s, step, scale, height);
  }

  /** As many rows fit on a page as the printable area is high at the width's scale. */
  lemma StepRows(width: int, innerW: real, innerH: real, scale: real, step: real)
    requires width > 0 && innerW > 0.0 && scale == innerW / width as real && scale > 0.0 && step == innerH / scale
    ensures step == innerH * width as real / innerW && step * innerW == innerH * width as real
  {
    assert scale * width as real == innerW;
    assert step * scale == innerH;
    Regrouped(step, scale, width as real);
    assert innerH * width as real == step * innerW;
  }

  lemma Regrouped(x: real, y: real, z: real)
    ensures x * y * z == x * (y * z)
  {
  }

  /** The image is larger than the allowed pages, measured at the page's width. */
  predicate Exceeds(width: int, height: nat, innerW: real, innerH: real, maxPages: nat) {
    maxPages == 0 || height as real * innerW > maxPages as real * (innerH * width as real)
  }

  /** Pages of innerH points at the scale that makes the width innerW points. */
  ghost predicate CutInto(slices: seq<Slice>, width: int, height: nat, innerW: real, innerH: real)
    requires width > 0 && innerW > 0.0
  {
    AllPages(slices, innerH * width as real / innerW, innerW / width as real, height)
  }

  lemma CutAtScale(slices: seq<Slice>, width: int, height: nat, innerW: real, innerH: real, scale: real, step: real)
    requires width > 0 && innerW > 0.0 && scale == innerW / width as real && scale > 0.0 && step == innerH / scale
    requires AllPages(slices, step, scale, height)
    ensures CutInto(slices, width, height, innerW, innerH)
  {
    StepRows(width, innerW, innerH, scale, step);
  }

  lemma TooMany(width: int, height: nat, innerW: real, innerH: real, scale: real, step: real, maxPages: nat)
    requires width > 0 && innerW > 0.0 && scale == innerW / width as real && scale > 0.0
    requires step == innerH / scale && step > 0.0
    ensures PageCount(height, step) > maxPages <==> Exceeds(width, height, innerW, innerH, maxPages)
  {
    StepRows(width, innerW, innerH, scale, step);
    MorePages(height, step, maxPages, innerW, innerH * width as real);
  }

  lemma MorePages(height: nat, step: real, maxPages: nat, innerW: real, area: real)
    requires step > 0.0 && innerW > 0.0 && step * innerW == area
    ensures PageCount(height, step) > maxPages <==>
            maxPages == 0 || height as real * innerW > maxPages as real * area
  {
    var q := height as real / step;
    ScaleSign(height as real, step);
    Regrouped(q, step, innerW);
    assert height as real * innerW == q * area;
    AreaPositive(step, innerW, area);
    if maxPages as real < q {
      Larger(maxPages as real, q, area);
    } else if q < maxPages as real {
      Larger(q, maxPages as real, area);
    }
  }

  lemma AreaPositive(x: real, y: real, area: real)
    requires x > 0.0 && y > 0.0 && x * y == area
    ensures area > 0.0
  {
  }

  /** The rows of one page, possibly none. */
  method Page(i: nat, height: nat, step: real, scale: real, ghost limit: real) returns (page: Slice)
    requires step > 0.0 && scale > 0.0 && step * scale == limit
    requires Times(i, step) == 0.0 || Times(i, step) < height as real
    ensures page.top == Cut(Times(i, step), height) <= page.bottom == Cut(Times(i + 1, step), height)
    ensures page.top < page.bottom ==> 0.0 < page.height <= limit
    ensures IsPage(page, i, step, scale, height)
  {
    var top := Multiple(i, step);
    var bottom := Multiple(i + 1, step);
    bottom := Bottom(bottom, height);
    PageStep(top, step, height);
    var printed := PrintedHeight(bottom - top, step, scale, limit);
    page := Slice(Round(top), Round(bottom), printed);
    PageIs(page, i, step, scale, height);
  }

  method PrintedHeight(part: real, step: real, scale: real, ghost limit: real) returns (h: real)
    requires scale > 0.0 && step * scale == limit && part <= step
    ensures h == Printed(part, scale) <= limit && (part > 0.0 ==> h > 0.0)
  {
    h := part * scale;
    assert (step - part) * scale == limit - h;
  }

  method Multiple(i: nat, x: real) returns (m: real)
    ensures m == Times(i, x)
  {
    TimesIs(i, x);
    m := i as real * x;
  }

  /** The i-th multiple of x, by repeated addition. */
  function Times(i: nat, x: real): real {
    if i == 0 then 0.0 else Times(i - 1, x) + x
  }

  lemma {:induction false} TimesIs(i: nat, x: real)
    ensures Times(i, x) == i as real * x
  {
    if i > 0 {
      TimesIs(i - 1, x);
      assert (i - 1) as real * x + x == ((i - 1) as real + 1.0) * x;
    }
  }

  lemma ScaleSign(x: real, d: real)
    requires d > 0.0
    ensures x / d <= 0.0 <==> x <= 0.0
    ensures x / d * d == x
  {
  }

  /** Each page starts inside the image. */
  lemma TopInside(i: nat, step: real, height: nat)
    requires step > 0.0 && i < PageCount(height, step)
    ensures Times(i, step) == 0.0 || Times(i, step) < height as real
  {
    if i > 0 {
      var q := height as real / step;
      ScaleSign(height as real, step);
      BelowCeil(i, q);
      MultipleBelow(i, q, step);
    }
  }

  lemma BelowCeil(i: int, q: real)
    requires i < Ceil(q)
    ensures (i as real) < q
  {
  }

  lemma MultipleBelow(i: nat, q: real, step: real)
    requires step > 0.0 && (i as real) < q
    ensures Times(i, step) < q * step
  {
    TimesIs(i, step);
    Larger(i as real, q, step);
  }

  lemma MultipleAbove(n: nat, q: real, step: real)
    requires step > 0.0 && q <= n as real
    ensures q * step <= Times(n, step)
  {
    TimesIs(n, step);
    if q < n as real { Larger(q, n as real, step); }
  }

  lemma PageStep(top: real, step: real, height: nat)
    requires step > 0.0 && (top == 0.0 || top < height as real)
    ensures var bottom := Bottom(top + step, height);
            && Round(top) == Cut(top, height) && Round(bottom) == Cut(top + step, height)
            && Round(top) <= Round(bottom) && bottom - top <= step
            && (Round(top) < Round(bottom) ==> top < bottom)
  {
    Monotone(top, Bottom(top + step, height));
  }

  function Bottom(x: real, height: nat): real { if x < height as real then x else height as real }

  lemma Larger(x: real, y: real, d: real)
    requires d > 0.0 && x < y
    ensures x * d < y * d
  {
  }

  /** The last page reaches the last row. */
  lemma LastCut(pages: nat, step: real, height: nat)
    requires step > 0.0 && pages == PageCount(height, step)
    ensures Cut(Times(pages, step), height) == height
  {
    var q := height as real / step;
    ScaleSign(height as real, step);
    MultipleAbove(pages, q, step);
    Nearest(height as real, height);
  }

  /** The row at which a page starting x rows down begins. */
  function Cut(x: real, height: nat): int { Round(Bottom(x, height)) }
}
