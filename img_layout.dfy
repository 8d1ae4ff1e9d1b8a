/** The geometry of `update_img_layout`, over exact reals: from the image's
    intrinsic size and the widget node's size, the style of the companion
    surface under each `ImgMode`. */
module ImgLayout {
  import opened Prelude
  import opened ImgModes

  /** `f32::EPSILON`, that is 2^-23. */
  const Epsilon: real := 0.00000011920928955078125

  function Abs(x: real): real {
    if x < 0.0 then -x else x
  }

  function Max(a: real, b: real): real {
    if a >= b then a else b
  }

  function Min(a: real, b: real): real {
    if a <= b then a else b
  }

  /** Both components are positive. */
  predicate Positive(v: Vec2) {
    v.x > 0.0 && v.y > 0.0
  }

  /** Both components are non-zero. */
  predicate NonZero(v: Vec2) {
    v.x != 0.0 && v.y != 0.0
  }

  /** The layout guard: a dimension of the image or of the node is within
      epsilon of zero. */
  predicate Degenerate(size: Vec2, node: Vec2) {
    Abs(size.x) < Epsilon || Abs(size.y) < Epsilon || Abs(node.x) < Epsilon || Abs(node.y) < Epsilon
  }

  /** The box of `Fit`: start from the node's width (tall image) or height
      (wide image) and, if the other side overflows, scale down to it. */
  function FitBox(size: Vec2, node: Vec2): (r: Vec2)
    requires NonZero(size) && NonZero(node)
    ensures r.x == node.x || r.y == node.y
  {
    var aspect := size.y / size.x;
    if aspect > 1.0 then
      var width := node.x;
      var height := width * aspect;
      if height > node.y then Vec2(width * (node.y / height), node.y) else Vec2(width, height)
    else
      var height := node.y;
      var width := height / aspect;
      if width > node.x then Vec2(node.x, height * (node.x / width)) else Vec2(width, height)
  }

  /** The box of `Cover`: as `FitBox`, but scaling up when the other side
      falls short of the node. */
  function CoverBox(size: Vec2, node: Vec2): (r: Vec2)
    requires NonZero(size) && NonZero(node)
    ensures r.x == node.x || r.y == node.y
  {
    var aspect := size.y / size.x;
    if aspect > 1.0 then
      var width := node.x;
      var height := width * aspect;
      if height < node.y then Vec2(width * (node.y / height), node.y) else Vec2(width, height)
    else
      var height := node.y;
      var width := height / aspect;
      if width < node.x then Vec2(node.x, height * (node.x / width)) else Vec2(width, height)
  }

  function PxSize(v: Vec2): UiSize {
    UiSize(Px(v.x), Px(v.y))
  }

  /** Horizontal margins `h` on both sides, vertical margins `v` on both. */
  function Margins(h: real, v: real): UiRect {
    UiRect(Px(h), Px(h), Px(v), Px(v))
  }

  /** The surface's style after one iteration of `update_img_layout` for a
      widget with intrinsic size `size` in a node of size `node`. */
  function LayoutStyle(style: Style, size: Vec2, node: Vec2, mode: ImgMode): (r: Style)
    ensures r.display == if Degenerate(size, node) then Hidden else Flex
    ensures Degenerate(size, node) ==> r == style.(display := Hidden)
  {
    if Degenerate(size, node) then style.(display := Hidden)
    else
      var shown := style.(display := Flex);
      match mode
      case Fit =>
        var b := FitBox(size, node);
        shown.(minSize := PxSize(b), size := PxSize(b),
               margin := Margins(Max(0.5 * (node.x - b.x), 0.0), Max(0.5 * (node.y - b.y), 0.0)))
      case Cover =>
        var b := CoverBox(size, node);
        shown.(minSize := PxSize(b), size := PxSize(b),
               margin := Margins(Min(0.5 * (node.x - b.x), 0.0), Min(0.5 * (node.y - b.y), 0.0)))
      case Stretch =>
        shown.(minSize := UiSize(Undefined, Undefined), size := UiSize(Percent(100.0), Percent(100.0)),
               margin := Margins(0.0, 0.0))
      case Source =>
        shown.(size := PxSize(size), minSize := PxSize(size),
               margin := Margins(0.5 * (node.x - size.x), 0.5 * (node.y - size.y)))
  }

  /** A quotient of positive numbers is positive. */
  lemma QuotientPositive(a: real, b: real)
    requires a > 0.0 && b > 0.0
    ensures a / b > 0.0
  {
  }

  /** Scaling a positive number by a factor in (0, 1) makes it smaller
      but keeps it positive. */
  lemma ScaleBelow(n: real, q: real)
    requires n > 0.0 && 0.0 < q < 1.0
    ensures 0.0 < n * q < n
  {
  }

  /** Scaling a positive number by a factor above one makes it larger. */
  lemma ScaleAbove(n: real, q: real)
    requires n > 0.0 && q > 1.0
    ensures n * q > n
  {
  }

  /** A quotient of a smaller by a larger positive number is below one. */
  lemma QuotientBelowOne(a: real, b: real)
    requires 0.0 < a < b
    ensures a / b < 1.0
  {
    assert 1.0 == b / b;
    assert b / b - a / b == (b - a) / b;
    assert (b - a) / b > 0.0;
  }
  /** A quotient of a larger by a smaller positive number is above one. */
  lemma QuotientAboveOne(a: real, b: real)
    requires 0.0 < b < a
    ensures a / b > 1.0
  {
    assert 1.0 == b / b;
    assert a / b - b / b == (a - b) / b;
    assert (a - b) / b > 0.0;
  }
  /** Deriving the height from a width by the aspect ratio keeps the
      image's proportions. */
  lemma AlongWidth(sx: real, sy: real, nx: real)
    requires sx > 0.0 && sy > 0.0
    ensures (nx * (sy / sx)) * sx == nx * sy
  {
    assert (sy / sx) * sx == sy;
  }
  /** Deriving the width from a height by the aspect ratio keeps the
      image's proportions. */
  lemma AlongHeight(sx: real, sy: real, ny: real)
    requires sx > 0.0 && sy > 0.0
    ensures ny * sx == (ny / (sy / sx)) * sy
  {
    var a := sy / sx;
    assert a * sx == sy;
    assert (ny / a) * a == ny;
  }
  /** Scaling a proportional box to a new height keeps it proportional. */
  lemma RescaleToHeight(w: real, h: real, ny: real, sx: real, sy: real)
    requires h > 0.0 && h * sx == w * sy
    ensures ny * sx == (w * (ny / h)) * sy
  {
    var q := ny / h;
    assert q * h == ny;
    calc {
      (w * q) * sy;
      q * (w * sy);
      q * (h * sx);
      (q * h) * sx;
    }
  }
  /** Scaling a proportional box to a new width keeps it proportional. */
  lemma RescaleToWidth(w: real, h: real, nx: real, sx: real, sy: real)
    requires w > 0.0 && h * sx == w * sy
    ensures (h * (nx / w)) * sx == nx * sy
  {
    var q := nx / w;
    assert q * w == nx;
    calc {
      (h * q) * sx;
      q * (h * sx);
      q * (w * sy);
      (q * w) * sy;
    }
  }

  /** `FitBox` and `CoverBox` start from the node's width when the image
      is taller than wide: the resulting box keeps the image's proportions
      and is positive. */
  lemma TallStart(size: Vec2, node: Vec2)
    requires Positive(size) && Positive(node)
    ensures var height := node.x * (size.y / size.x);
      height > 0.0 && height * size.x == node.x * size.y
  {
    QuotientPositive(size.y, size.x);
    AlongWidth(size.x, size.y, node.x);
  }

  /** Otherwise they start from the node's height. */
  lemma WideStart(size: Vec2, node: Vec2)
    requires Positive(size) && Positive(node)
    ensures var width := node.y / (size.y / size.x);
      width > 0.0 && node.y * size.x == width * size.y
  {
    QuotientPositive(size.y, size.x);
    QuotientPositive(node.y, size.y / size.x);
    AlongHeight(size.x, size.y, node.y);
  }

  /** A proportional box `(w, h)` taller than the node, scaled down to the
      node's height `ny`, stays proportional and gets narrower. */
  lemma ShrinkToHeight(w: real, h: real, ny: real, sx: real, sy: real)
    requires w > 0.0 && 0.0 < ny < h && h * sx == w * sy
    ensures 0.0 < w * (ny / h) < w && ny * sx == (w * (ny / h)) * sy
  {
    RescaleToHeight(w, h, ny, sx, sy);
    QuotientPositive(ny, h);
    QuotientBelowOne(ny, h);
    ScaleBelow(w, ny / h);
  }

  /** A proportional box `(w, h)` wider than the node, scaled down to the
      node's width `nx`, stays proportional and gets lower. */
  lemma ShrinkToWidth(w: real, h: real, nx: real, sx: real, sy: real)
    requires h > 0.0 && 0.0 < nx < w && h * sx == w * sy
    ensures 0.0 < h * (nx / w) < h && (h * (nx / w)) * sx == nx * sy
  {
    RescaleToWidth(w, h, nx, sx, sy);
    QuotientPositive(nx, w);
    QuotientBelowOne(nx, w);
    ScaleBelow(h, nx / w);
  }

  /** A proportional box `(w, h)` lower than the node, scaled up to the
      node's height `ny`, stays proportional and gets wider. */
  lemma GrowToHeight(w: real, h: real, ny: real, sx: real, sy: real)
    requires w > 0.0 && 0.0 < h < ny && h * sx == w * sy
    ensures w * (ny / h) > w && ny * sx == (w * (ny / h)) * sy
  {
    RescaleToHeight(w, h, ny, sx, sy);
    QuotientAboveOne(ny, h);
    ScaleAbove(w, ny / h);
  }

  /** A proportional box `(w, h)` narrower than the node, scaled up to the
      node's width `nx`, stays proportional and gets taller. */
  lemma GrowToWidth(w: real, h: real, nx: real, sx: real, sy: real)
    requires h > 0.0 && 0.0 < w < nx && h * sx == w * sy
    ensures h * (nx / w) > h && (h * (nx / w)) * sx == nx * sy
  {
    RescaleToWidth(w, h, nx, sx, sy);
    QuotientAboveOne(nx, w);
    ScaleAbove(h, nx / w);
  }

  /** The properties `FitBoxGeometry` promises of a box `b`. */
  predicate FitsInside(b: Vec2, size: Vec2, node: Vec2) {
    && 0.0 < b.x <= node.x && 0.0 < b.y <= node.y
    && b.y * size.x == b.x * size.y
    && (b.x == node.x || b.y == node.y)
  }

  /** `FitBox` for an image taller than wide. */
  lemma FitTall(size: Vec2, node: Vec2)
    requires Positive(size) && Positive(node) && size.y / size.x > 1.0
    ensures FitsInside(FitBox(size, node), size, node)
  {
    var height := node.x * (size.y / size.x);
    TallStart(size, node);
    if height > node.y {
      ShrinkToHeight(node.x, height, node.y, size.x, size.y);
      assert FitBox(size, node) == Vec2(node.x * (node.y / height), node.y);
    } else {
      assert FitBox(size, node) == Vec2(node.x, height);
    }
  }

  /** `FitBox` for an image at least as wide as tall. */
  lemma FitWide(size: Vec2, node: Vec2)
    requires Positive(size) && Positive(node) && size.y / size.x <= 1.0
    ensures FitsInside(FitBox(size, node), size, node)
  {
    var width := node.y / (size.y / size.x);
    WideStart(size, node);
    if width > node.x {
      ShrinkToWidth(width, node.y, node.x, size.x, size.y);
      assert FitBox(size, node) == Vec2(node.x, node.y * (node.x / width));
    } else {
      assert FitBox(size, node) == Vec2(width, node.y);
    }
  }

  /** For positive sizes, `Fit` gives a positive box inside the node, with
      the image's aspect ratio (stated cross-multiplied) and touching the
      node on at least one side. */
  lemma FitBoxGeometry(size: Vec2, node: Vec2)
    requires Positive(size) && Positive(node)
    ensures var b := FitBox(size, node);
      && 0.0 < b.x <= node.x && 0.0 < b.y <= node.y
      && b.y * size.x == b.x * size.y
      && (b.x == node.x || b.y == node.y)
  {
    if size.y / size.x > 1.0 {
      FitTall(size, node);
    } else {
      FitWide(size, node);
    }
  }

  /** The properties `CoverBoxGeometry` promises of a box `b`. */
  predicate CoversNode(b: Vec2, size: Vec2, node: Vec2) {
    && b.x >= node.x && b.y >= node.y
    && b.y * size.x == b.x * size.y
    && (b.x == node.x || b.y == node.y)
  }

  /** `CoverBox` for an image taller than wide. */
  lemma CoverTall(size: Vec2, node: Vec2)
    requires Positive(size) && Positive(node) && size.y / size.x > 1.0
    ensures CoversNode(CoverBox(size, node), size, node)
  {
    var height := node.x * (size.y / size.x);
    TallStart(size, node);
    if height < node.y {
      GrowToHeight(node.x, height, node.y, size.x, size.y);
      assert CoverBox(size, node) == Vec2(node.x * (node.y / height), node.y);
    } else {
      assert CoverBox(size, node) == Vec2(node.x, height);
    }
  }

  /** `CoverBox` for an image at least as wide as tall. */
  lemma CoverWide(size: Vec2, node: Vec2)
    requires Positive(size) && Positive(node) && size.y / size.x <= 1.0
    ensures CoversNode(CoverBox(size, node), size, node)
  {
    var width := node.y / (size.y / size.x);
    WideStart(size, node);
    if width < node.x {
      GrowToWidth(width, node.y, node.x, size.x, size.y);
      assert CoverBox(size, node) == Vec2(node.x, node.y * (node.x / width));
    } else {
      assert CoverBox(size, node) == Vec2(width, node.y);
    }
  }

  /** For positive sizes, `Cover` gives a box that covers the node, with
      the image's aspect ratio and matching the node on at least one side. */
  lemma CoverBoxGeometry(size: Vec2, node: Vec2)
    requires Positive(size) && Positive(node)
    ensures var b := CoverBox(size, node);
      && b.x >= node.x && b.y >= node.y
      && b.y * size.x == b.x * size.y
      && (b.x == node.x || b.y == node.y)
  {
    if size.y / size.x > 1.0 {
      CoverTall(size, node);
    } else {
      CoverWide(size, node);
    }
  }

  /** The surface is shown exactly when no dimension is near zero; when
      hidden, nothing else of its style is written. */
  lemma LayoutVisibility(style: Style, size: Vec2, node: Vec2, mode: ImgMode)
    ensures var r := LayoutStyle(style, size, node, mode);
      && (r.display == Flex <==> !Degenerate(size, node))
      && (Degenerate(size, node) ==> r == style.(display := Hidden))
  {
  }

  /** `Fit`: the box lies inside the node, keeps the image's proportions,
      touches the node on one side, is its own minimum size, and is
      centred by equal, non-negative margins on opposite sides. */
  lemma LayoutFit(style: Style, size: Vec2, node: Vec2)
    requires Positive(size) && Positive(node) && !Degenerate(size, node)
    ensures var r := LayoutStyle(style, size, node, Fit);
      && r.display == Flex && r.size == r.minSize
      && r.size.width.Px? && r.size.height.Px?
      && r.margin.left == r.margin.right && r.margin.top == r.margin.bottom
      && r.margin.left.Px? && r.margin.top.Px?
      && var w, h, mx, my := r.size.width.px, r.size.height.px, r.margin.left.px, r.margin.top.px;
      && 0.0 < w <= node.x && 0.0 < h <= node.y
      && h * size.x == w * size.y
      && (w == node.x || h == node.y)
      && mx >= 0.0 && my >= 0.0
      && mx + w + mx == node.x && my + h + my == node.y
  {
    FitBoxGeometry(size, node);
  }

  /** `Cover`: the box covers the node, keeps the image's proportions,
      matches the node on one side, is its own minimum size, and overflows
      equally on opposite sides through non-positive margins. */
  lemma LayoutCover(style: Style, size: Vec2, node: Vec2)
    requires Positive(size) && Positive(node) && !Degenerate(size, node)
    ensures var r := LayoutStyle(style, size, node, Cover);
      && r.display == Flex && r.size == r.minSize
      && r.size.width.Px? && r.size.height.Px?
      && r.margin.left == r.margin.right && r.margin.top == r.margin.bottom
      && r.margin.left.Px? && r.margin.top.Px?
      && var w, h, mx, my := r.size.width.px, r.size.height.px, r.margin.left.px, r.margin.top.px;
      && w >= node.x && h >= node.y
      && h * size.x == w * size.y
      && (w == node.x || h == node.y)
      && mx <= 0.0 && my <= 0.0
      && mx + w + mx == node.x && my + h + my == node.y
  {
    CoverBoxGeometry(size, node);
  }

  /** `Stretch`: the box is the whole node whatever the image's size, has
      no minimum size and no margins. */
  lemma LayoutStretch(style: Style, size: Vec2, other: Vec2, node: Vec2)
    requires !Degenerate(size, node) && !Degenerate(other, node)
    ensures var r := LayoutStyle(style, size, node, Stretch);
      && r == LayoutStyle(style, other, node, Stretch)
      && r.display == Flex
      && r.size == UiSize(Percent(100.0), Percent(100.0))
      && r.minSize == UiSize(Undefined, Undefined)
      && r.margin == UiRect(Px(0.0), Px(0.0), Px(0.0), Px(0.0))
  {
  }

  /** `Source`: the box is the image's own size, which is also its minimum
      size, centred in the node by equal margins that go negative when the
      image is larger than the node. */
  lemma LayoutSource(style: Style, size: Vec2, node: Vec2)
    requires !Degenerate(size, node)
    ensures var r := LayoutStyle(style, size, node, Source);
      && r.display == Flex
      && r.size == r.minSize == UiSize(Px(size.x), Px(size.y))
      && r.margin.left == r.margin.right && r.margin.top == r.margin.bottom
      && r.margin.left.Px? && r.margin.top.Px?
      && r.margin.left.px + size.x + r.margin.right.px == node.x
      && r.margin.top.px + size.y + r.margin.bottom.px == node.y
  {
  }

  /** A 100x100 image fitted in a 200x100 node: a 100x100 box with
      horizontal margins 50 and vertical margins 0. */
  lemma FitExample(style: Style)
    ensures var r := LayoutStyle(style, Vec2(100.0, 100.0), Vec2(200.0, 100.0), Fit);
      r.size == r.minSize == UiSize(Px(100.0), Px(100.0)) && r.margin == Margins(50.0, 0.0)
  {
  }

  /** The same image covering the same node: a 200x200 box with vertical
      margins -50 and horizontal margins 0. */
  lemma CoverExample(style: Style)
    ensures var r := LayoutStyle(style, Vec2(100.0, 100.0), Vec2(200.0, 100.0), Cover);
      r.size == r.minSize == UiSize(Px(200.0), Px(200.0)) && r.margin == Margins(0.0, -50.0)
  {
  }

  /** A 300x50 image at source size in a 200x100 node: horizontal margins
      -50 and vertical margins 25. */
  lemma SourceExample(style: Style)
    ensures var r := LayoutStyle(style, Vec2(300.0, 50.0), Vec2(200.0, 100.0), Source);
      r.size == UiSize(Px(300.0), Px(50.0)) && r.margin == Margins(-50.0, 25.0)
  {
  }

  /** A node of width zero hides the surface and leaves its box alone. */
  lemma ZeroWidthExample(style: Style, size: Vec2, mode: ImgMode)
    ensures LayoutStyle(style, size, Vec2(0.0, 100.0), mode) == style.(display := Hidden)
  {
  }
}
