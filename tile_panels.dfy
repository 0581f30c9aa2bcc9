/**
 * The panel-tiling engine of `tile_panels.py`: panel discovery by file name,
 * grid layout, the canonical panel size, canvas size and grid placement,
 * pasting into a white canvas, and the outline-then-fill label plans.
 *
 * Pixels are abstract: a canvas pixel is either white or "pixel (sx, sy) of
 * panel L", so that pasting is observable without modelling image content.
 * Text drawing is recorded as a log of draw calls; glyphs are not rendered.
 */
module TilePanels {
  import opened Wrappers
  import opened Strings
  import opened Paths

  // ================================================================ discovery

  /** One entry of the label -> path mapping that discovery returns. */
  datatype PanelFile = PanelFile(letter: char, path: string)

  /** `figure_base.split("_")[0]`. */
  function FigureId(figureBase: string): string
  {
    Split(figureBase, "_")[0]
  }

  /** The figure id is the part of the base name before its first underscore, or the whole name without one. */
  lemma FigureIdPrefix(figureBase: string)
    ensures '_' !in figureBase ==> FigureId(figureBase) == figureBase
    ensures forall k :: 0 <= k < |figureBase| && figureBase[k] == '_' && '_' !in figureBase[..k] ==>
      FigureId(figureBase) == figureBase[..k]
  {
    if '_' !in figureBase {
      forall i | 0 <= i <= |figureBase| ensures !OccursAt(figureBase, "_", i) {
        if i < |figureBase| {
          assert figureBase[i] in figureBase;
          assert figureBase[i..i + 1][0] == figureBase[i];
        }
      }
      SplitWithoutSeparator(figureBase, "_");
    }
    forall k | 0 <= k < |figureBase| && figureBase[k] == '_' && '_' !in figureBase[..k]
      ensures FigureId(figureBase) == figureBase[..k]
    {
      assert figureBase == figureBase[..k] + ['_'] + figureBase[k + 1..];
      SplitCharFirst(figureBase[..k], '_', figureBase[k + 1..]);
    }
  }

  /**
   * The glob pattern `<figure_id>[a-zA-Z]_*.jpg` matched against a whole file name, with the figure
   * id taken literally: glob syntax inside the id itself is not interpreted.
   */
  predicate IsPanelName(id: string, name: string)
  {
    |name| >= |id| + 6 && StartsWith(name, id) && IsAsciiLetter(name[|id|])
    && name[|id| + 1] == '_' && EndsWith(name, ".jpg")
  }

  /** The upper-cased letter that follows the figure id in a matching name. */
  function PanelLetter(id: string, name: string): (c: char)
    requires IsPanelName(id, name)
    ensures 'A' <= c <= 'Z'
  {
    UpperChar(name[|id|])
  }

  /** The key `detect_panels` uses, `Path(name).stem[len(figure_id)].upper()`, is that letter. */
  lemma PanelLetterFromStem(id: string, name: string)
    requires IsPanelName(id, name)
    ensures |id| < |Stem(name)| && PanelLetter(id, name) == UpperChar(Stem(name)[|id|])
  {
    StemOfSuffix(name, ".jpg");
  }

  /** File `name` is a panel of figure `id` with label `c`. */
  predicate Matches(id: string, name: string, c: char)
  {
    IsPanelName(id, name) && PanelLetter(id, name) == c
  }

  /**
   * The `panels` dict after the discovery loop has seen `names`, in enumeration order; each value is
   * `str(panel_file)`, the child path of `Path(dir)` that `glob` yields.
   */
  function PanelMap(id: string, dir: string, names: seq<string>): (m: map<char, string>)
    ensures forall c :: c in m ==> 'A' <= c <= 'Z'
  {
    if names == [] then map[]
    else
      var m := PanelMap(id, dir, names[..|names| - 1]);
      var name := names[|names| - 1];
      if IsPanelName(id, name) then m[PanelLetter(id, name) := PathChild(dir, name)] else m
  }

  /** A label is discovered exactly when some listed file carries it. */
  lemma {:induction false} PanelMapDomain(id: string, dir: string, names: seq<string>, c: char)
    ensures c in PanelMap(id, dir, names) <==> exists i :: 0 <= i < |names| && Matches(id, names[i], c)
  {
    if names != [] {
      var init := names[..|names| - 1];
      PanelMapDomain(id, dir, init, c);
      assert forall i :: 0 <= i < |init| ==> init[i] == names[i];
      if c in PanelMap(id, dir, init) {
        var i :| 0 <= i < |init| && Matches(id, init[i], c);
        assert Matches(id, names[i], c);
      }
    }
  }

  /** A discovered label maps to the LAST listed file carrying it: a later match overwrites an earlier one. */
  lemma {:induction false} PanelMapLastMatch(id: string, dir: string, names: seq<string>, c: char)
    requires c in PanelMap(id, dir, names)
    ensures exists i :: LastMatchAt(id, dir, names, c, i)
  {
    var init := names[..|names| - 1];
    var last := |names| - 1;
    if Matches(id, names[last], c) {
      assert LastMatchAt(id, dir, names, c, last);
    } else {
      assert c in PanelMap(id, dir, init) && PanelMap(id, dir, names)[c] == PanelMap(id, dir, init)[c];
      PanelMapLastMatch(id, dir, init, c);
      var i :| LastMatchAt(id, dir, init, c, i);
      LastMatchExtends(id, dir, names, c, i);
    }
  }

  /** File `i` carries label `c`, is where the map sends `c`, and no later file carries `c`. */
  predicate LastMatchAt(id: string, dir: string, names: seq<string>, c: char, i: int)
  {
    0 <= i < |names| && Matches(id, names[i], c) && c in PanelMap(id, dir, names)
    && PanelMap(id, dir, names)[c] == PathChild(dir, names[i])
    && forall j :: i < j < |names| ==> !Matches(id, names[j], c)
  }

  /** A last match stays the last match when a file without label `c` is appended. */
  lemma LastMatchExtends(id: string, dir: string, names: seq<string>, c: char, i: int)
    requires names != [] && !Matches(id, names[|names| - 1], c)
    requires LastMatchAt(id, dir, names[..|names| - 1], c, i)
    ensures LastMatchAt(id, dir, names, c, i)
  {
    var init := names[..|names| - 1];
    assert names[i] == init[i];
    forall j | i < j < |names| ensures !Matches(id, names[j], c) {
      if j < |names| - 1 { assert names[j] == init[j]; }
    }
  }

  /** `dict(sorted(m.items()))` for a mapping keyed by upper-case letters: visiting 'A'..'Z' in turn yields the sorted order. */
  method SortedItems(m: map<char, string>) returns (items: seq<PanelFile>)
    requires forall c :: c in m ==> 'A' <= c <= 'Z'
    ensures forall k :: 0 <= k < |items| ==> items[k].letter in m && m[items[k].letter] == items[k].path
    ensures forall c :: c in m ==> exists k :: 0 <= k < |items| && items[k].letter == c
    ensures forall j, k :: 0 <= j < k < |items| ==> items[j].letter < items[k].letter
  {
    items := [];
    var code := 'A' as int;
    while code <= 'Z' as int
      invariant 'A' as int <= code <= 'Z' as int + 1
      invariant ItemsBelow(m, items, code)
    {
      var c := code as char;
      ghost var before := items;
      if c in m {
        items := items + [PanelFile(c, m[c])];
      }
      ItemsBelowStep(m, before, items, c);
      code := code + 1;
    }
  }

  /** The items hold exactly the entries of `m` with a letter below `code`, in increasing order. */
  ghost predicate ItemsBelow(m: map<char, string>, items: seq<PanelFile>, code: int)
  {
    (forall k :: 0 <= k < |items| ==>
       items[k].letter in m && m[items[k].letter] == items[k].path && items[k].letter as int < code)
    && (forall c :: c in m && c as int < code ==> exists k :: 0 <= k < |items| && items[k].letter == c)
    && (forall j, k :: 0 <= j < k < |items| ==> items[j].letter < items[k].letter)
  }

  /** One turn of the letter scan: appending the entry for `c`, if any, moves the bound past `c`. */
  lemma ItemsBelowStep(m: map<char, string>, before: seq<PanelFile>, items: seq<PanelFile>, c: char)
    requires ItemsBelow(m, before, c as int)
    requires items == if c in m then before + [PanelFile(c, m[c])] else before
    ensures ItemsBelow(m, items, c as int + 1)
  {
    forall e | e in m && e as int < c as int + 1 ensures exists k :: 0 <= k < |items| && items[k].letter == e {
      if e as int < c as int {
        var k :| 0 <= k < |before| && before[k].letter == e;
        assert items[k] == before[k];
      } else {
        assert items[|items| - 1].letter == e;
      }
    }
  }

  /**
   * `detect_panels`: scans the listing of `search_dir` in enumeration order, keeps the files matching
   * the figure's glob, keys each by its upper-cased letter, and returns the items sorted by label.
   */
  method DetectPanels(figureBase: string, searchDir: string, listing: seq<string>) returns (panels: seq<PanelFile>)
    ensures forall k :: 0 <= k < |panels| ==> (panels[k].letter in PanelMap(FigureId(figureBase), searchDir, listing)
      && PanelMap(FigureId(figureBase), searchDir, listing)[panels[k].letter] == panels[k].path)
    ensures forall c :: c in PanelMap(FigureId(figureBase), searchDir, listing) ==>
      exists k :: 0 <= k < |panels| && panels[k].letter == c
    ensures forall j, k :: 0 <= j < k < |panels| ==> panels[j].letter < panels[k].letter
    ensures panels == [] <==> PanelMap(FigureId(figureBase), searchDir, listing) == map[]
  {
    var id := FigureId(figureBase);
    var found: map<char, string> := map[];
    var i := 0;
    while i < |listing|
      invariant 0 <= i <= |listing|
      invariant found == PanelMap(id, searchDir, listing[..i])
    {
      var name := listing[i];
      assert listing[..i + 1][..i] == listing[..i];
      if IsPanelName(id, name) {
        found := found[PanelLetter(id, name) := PathChild(searchDir, name)];
      }
      i := i + 1;
    }
    assert listing[..|listing|] == listing;
    panels := SortedItems(found);
    assert panels != [] ==> panels[0].letter in found;
    if found != map[] {
      var c :| c in found;
      var k :| 0 <= k < |panels| && panels[k].letter == c;
      assert panels != [];
    }
  }

  // ================================================================ layout

  /** A grid of `rows` x `cols` cells. */
  datatype Grid = Grid(rows: int, cols: int)

  /** The least `r >= c` with `r * r >= n`: `math.ceil(math.sqrt(n))` in exact arithmetic. */
  function CeilSqrtFrom(n: int, c: nat): (r: nat)
    requires c == 0 || (c - 1) * (c - 1) < n
    ensures r * r >= n && (r == 0 || (r - 1) * (r - 1) < n)
    decreases n - c
  {
    if c * c >= n then c
    else
      assert c <= c * c;
      CeilSqrtFrom(n, c + 1)
  }

  /** `calculate_layout`: the fixed table for 1..9 panels, a near-square grid beyond. */
  function CalculateLayout(n: int): Grid
  {
    if n == 1 then Grid(1, 1)
    else if n == 2 then Grid(1, 2)
    else if n == 3 then Grid(1, 3)
    else if n == 4 then Grid(2, 2)
    else if n <= 6 then Grid(2, 3)
    else if n <= 9 then Grid(3, 3)
    else
      var cols := CeilSqrtFrom(n, 0);
      Grid((n + cols - 1) / cols, cols)
  }

  lemma MulSucc(a: int, b: int)
    ensures (a + 1) * b == a * b + b
  {
  }

  lemma MulLeft(a: int, b: int, c: int)
    requires a <= b && c >= 0
    ensures a * c <= b * c
  {
  }

  /**
   * For every positive count the grid has room for all panels and is never taller than wide; from 10
   * panels on, `cols` is the ceiling of the square root and `rows` the ceiling of `n / cols`.
   */
  lemma LayoutFits(n: int)
    requires n >= 1
    ensures var g := CalculateLayout(n); g.rows * g.cols >= n && 1 <= g.rows <= g.cols
    ensures n >= 10 ==> var g := CalculateLayout(n);
      g.cols * g.cols >= n && (g.cols - 1) * (g.cols - 1) < n
      && (g.rows - 1) * g.cols < n <= g.rows * g.cols
  {
    if n >= 10 {
      var cols := CeilSqrtFrom(n, 0);
      assert cols >= 1;
      CeilDivBounds(n, cols);
      CeilDivAtMost(n, cols);
    }
  }

  /** `ceil(n / cols)` as written, `(n + cols - 1) // cols`, is the least row count that holds `n`. */
  lemma CeilDivBounds(n: int, cols: int)
    requires n >= 1 && cols >= 1
    ensures var q := (n + cols - 1) / cols; q >= 1 && (q - 1) * cols < n <= q * cols
  {
    var q := (n + cols - 1) / cols;
    var r := (n + cols - 1) % cols;
    assert n + cols - 1 == q * cols + r && 0 <= r < cols;
    MulSucc(q - 1, cols);
    assert q >= 1 by {
      if q <= 0 { MulLeft(q, 0, cols); }
    }
  }

  /** With `cols * cols >= n` the rows never outnumber the columns. */
  lemma CeilDivAtMost(n: int, cols: int)
    requires n >= 1 && cols >= 1 && cols * cols >= n
    ensures (n + cols - 1) / cols <= cols
  {
    var q := (n + cols - 1) / cols;
    CeilDivBounds(n, cols);
    if q > cols {
      MulLeft(cols + 1, q, cols);
      MulSucc(cols, cols);
    }
  }

  /** The fixed table for small counts, and the example of eleven panels. */
  lemma LayoutTable()
    ensures CalculateLayout(1) == Grid(1, 1) && CalculateLayout(2) == Grid(1, 2)
    ensures CalculateLayout(3) == Grid(1, 3) && CalculateLayout(4) == Grid(2, 2)
    ensures CalculateLayout(5) == Grid(2, 3) && CalculateLayout(6) == Grid(2, 3)
    ensures CalculateLayout(7) == Grid(3, 3) && CalculateLayout(8) == Grid(3, 3)
    ensures CalculateLayout(9) == Grid(3, 3)
    ensures CalculateLayout(0) == Grid(2, 3)
    ensures CalculateLayout(11) == Grid(3, 4)
  {
    assert CeilSqrtFrom(11, 0) == 4 by {
      assert CeilSqrtFrom(11, 3) == CeilSqrtFrom(11, 4) == 4;
    }
  }

  // ================================================================ canonical size

  /** Pixel dimensions of a (decoded or resized) panel image. */
  datatype Size = Size(width: nat, height: nat)

  predicate IsStandardLabel(c: char) { c == 'A' || c == 'B' || c == 'C' }

  /** The size of the first panel labelled A, B or C, in the mapping's order. */
  function FirstStandardSize(images: seq<(char, Size)>): (r: Option<Size>)
    ensures r.None? <==> forall i :: 0 <= i < |images| ==> !IsStandardLabel(images[i].0)
    ensures r.Some? ==> exists i :: (0 <= i < |images| && IsStandardLabel(images[i].0) && images[i].1 == r.value
      && forall j :: 0 <= j < i ==> !IsStandardLabel(images[j].0))
  {
    if images == [] then None
    else if IsStandardLabel(images[0].0) then Some(images[0].1)
    else
      var r := FirstStandardSize(images[1..]);
      assert forall i :: 1 <= i < |images| ==> images[i] == images[1..][i - 1];
      r
  }

  /** The panel size every panel is resized to: from A, B or C when present, otherwise 1889 x 1200. */
  function CanonicalSize(images: seq<(char, Size)>): Size
  {
    match FirstStandardSize(images)
    case Some(s) => s
    case None => Size(1889, 1200)
  }

  /** The target size is that of the first A, B or C panel, and 1889 x 1200 when there is none. */
  lemma CanonicalSizeChoice(images: seq<(char, Size)>)
    ensures (forall i :: 0 <= i < |images| ==> !IsStandardLabel(images[i].0)) ==> CanonicalSize(images) == Size(1889, 1200)
    ensures forall i :: (0 <= i < |images| && IsStandardLabel(images[i].0)
      && forall j :: 0 <= j < i ==> !IsStandardLabel(images[j].0)) ==> CanonicalSize(images) == images[i].1
  {
    var r := FirstStandardSize(images);
    if r.Some? {
      var k :| 0 <= k < |images| && IsStandardLabel(images[k].0) && images[k].1 == r.value
        && forall j :: 0 <= j < k ==> !IsStandardLabel(images[j].0);
      forall i | 0 <= i < |images| && IsStandardLabel(images[i].0) && (forall j :: 0 <= j < i ==> !IsStandardLabel(images[j].0))
        ensures CanonicalSize(images) == images[i].1
      {
        assert !(i < k) && !(k < i);
      }
    }
  }

  // ================================================================ canvas geometry

  /** `total_width` and `total_height` of the composite. */
  function CanvasWidth(g: Grid, target: Size, spacing: int): int
  {
    g.cols * target.width + (g.cols - 1) * spacing
  }

  function CanvasHeight(g: Grid, target: Size, spacing: int): int
  {
    g.rows * target.height + (g.rows - 1) * spacing
  }

  /** Where one panel goes: its label and the top-left corner of its cell. */
  datatype Placement = Placement(letter: char, x: int, y: int)

  /** The i-th label in sorted order goes to row `i div cols`, column `i mod cols`. */
  function Placements(labels: seq<char>, g: Grid, target: Size, spacing: int): (ps: seq<Placement>)
    requires g.cols >= 1
    ensures |ps| == |labels|
    ensures forall i :: 0 <= i < |labels| ==> ps[i] == Placement(labels[i],
      (i % g.cols) * (target.width + spacing), (i / g.cols) * (target.height + spacing))
  {
    seq(|labels|, i requires 0 <= i < |labels| =>
      Placement(labels[i], (i % g.cols) * (target.width + spacing), (i / g.cols) * (target.height + spacing)))
  }

  predicate InRect(px: int, py: int, x: int, y: int, w: int, h: int)
  {
    x <= px < x + w && y <= py < y + h
  }

  /** The two columns' x-ranges of width `w` at pitch `w + s` do not overlap. */
  lemma PitchSeparates(a: int, b: int, w: nat, s: int)
    requires 0 <= a < b && s >= 0
    ensures a * (w + s) + w <= b * (w + s)
  {
    MulLeft(a + 1, b, w + s);
  }

  /** A cell index below `rows * cols` lies in row `< rows` and column `< cols`. */
  lemma CellInGrid(i: int, g: Grid)
    requires g.cols >= 1 && 0 <= i < g.rows * g.cols
    ensures 0 <= i / g.cols < g.rows && 0 <= i % g.cols < g.cols
  {
    if i / g.cols >= g.rows {
      MulLeft(g.rows, i / g.cols, g.cols);
    }
  }

  /** With non-negative spacing every cell's rectangle lies inside the canvas. */
  lemma PlacementInside(labels: seq<char>, g: Grid, target: Size, spacing: int, i: int)
    requires g.cols >= 1 && spacing >= 0 && |labels| <= g.rows * g.cols && 0 <= i < |labels|
    ensures var p := Placements(labels, g, target, spacing)[i];
      0 <= p.x && p.x + target.width <= CanvasWidth(g, target, spacing)
      && 0 <= p.y && p.y + target.height <= CanvasHeight(g, target, spacing)
  {
    CellInGrid(i, g);
    OffsetInside(i % g.cols, g.cols, target.width, spacing);
    OffsetInside(i / g.cols, g.rows, target.height, spacing);
  }

  /** Cell `k < n` of width `w` at pitch `w + s` lies within `n * w + (n - 1) * s`. */
  lemma OffsetInside(k: int, n: int, w: nat, s: int)
    requires 0 <= k < n && s >= 0
    ensures 0 <= k * (w + s) && k * (w + s) + w <= n * w + (n - 1) * s
  {
    MulLeft(0, k, w + s);
    MulLeft(k, n - 1, w + s);
    assert (n - 1) * (w + s) + w == n * w + (n - 1) * s;
  }

  /** With non-negative spacing two different cells' rectangles share no pixel. */
  lemma PlacementsDisjoint(labels: seq<char>, g: Grid, target: Size, spacing: int, i: int, j: int, px: int, py: int)
    requires g.cols >= 1 && spacing >= 0 && 0 <= i < j < |labels|
    ensures var ps := Placements(labels, g, target, spacing);
      !(InRect(px, py, ps[i].x, ps[i].y, target.width, target.height)
        && InRect(px, py, ps[j].x, ps[j].y, target.width, target.height))
  {
    CellsApart(i, j, g.cols);
    var ri, ci, rj, cj := i / g.cols, i % g.cols, j / g.cols, j % g.cols;
    if ri == rj {
      PitchSeparates(ci, cj, target.width, spacing);
    } else {
      PitchSeparates(ri, rj, target.height, spacing);
    }
  }

  /** Two cell indices `i < j` are either in one row with `i` to the left, or `i` is in an earlier row. */
  lemma CellsApart(i: int, j: int, cols: int)
    requires cols >= 1 && 0 <= i < j
    ensures 0 <= i % cols && (i / cols == j / cols ==> i % cols < j % cols) && i / cols <= j / cols
  {
    if i / cols > j / cols {
      MulLeft(j / cols + 1, i / cols, cols);
    }
  }

  // ================================================================ pixels and the pasted image

  /** A canvas pixel: still white, or pixel (sx, sy) of the panel labelled `letter`. */
  datatype Pixel = WhitePixel | FromPanel(letter: char, sx: int, sy: int)

  /** The pixel seen at (px, py) after pasting `ps` in order onto a white canvas: the last paste to cover it wins. */
  function PixelAfter(ps: seq<Placement>, target: Size, px: int, py: int): Pixel
  {
    if ps == [] then WhitePixel
    else
      var p := ps[|ps| - 1];
      if InRect(px, py, p.x, p.y, target.width, target.height) then FromPanel(p.letter, px - p.x, py - p.y)
      else PixelAfter(ps[..|ps| - 1], target, px, py)
  }

  /**
   * With non-negative spacing the composite shows, inside cell k, exactly panel k's own pixel at the
   * matching offset, and white outside every cell.
   */
  lemma {:induction false} CompositePixel(labels: seq<char>, g: Grid, target: Size, spacing: int, n: nat, px: int, py: int)
    requires g.cols >= 1 && spacing >= 0 && n <= |labels|
    ensures var ps := Placements(labels, g, target, spacing);
      (forall k :: 0 <= k < n && InRect(px, py, ps[k].x, ps[k].y, target.width, target.height) ==>
         PixelAfter(ps[..n], target, px, py) == FromPanel(labels[k], px - ps[k].x, py - ps[k].y))
      && ((forall k :: 0 <= k < n ==> !InRect(px, py, ps[k].x, ps[k].y, target.width, target.height)) ==>
         PixelAfter(ps[..n], target, px, py) == WhitePixel)
  {
    var ps := Placements(labels, g, target, spacing);
    if n > 0 {
      CompositePixel(labels, g, target, spacing, n - 1, px, py);
      assert ps[..n][..n - 1] == ps[..n - 1];
      assert ps[..n][n - 1] == ps[n - 1];
      forall k | 0 <= k < n - 1 && InRect(px, py, ps[k].x, ps[k].y, target.width, target.height)
        ensures !InRect(px, py, ps[n - 1].x, ps[n - 1].y, target.width, target.height)
      {
        PlacementsDisjoint(labels, g, target, spacing, k, n - 1, px, py);
      }
    }
  }

  // ================================================================ labels as draw calls

  datatype Colour = White | Black

  /** The font a label is drawn with: the first loadable TrueType candidate, or PIL's built-in bitmap font. */
  datatype Font = TrueType(path: string, size: int) | DefaultBitmap

  /** One `draw.text((x, y), text, fill=..., font=...)` call. */
  datatype DrawCall = DrawText(x: int, y: int, text: string, fill: Colour, font: Font)

  /** Trying `ImageFont.truetype` on each candidate in order; `loadable` says which files load. */
  function ChooseFont(candidates: seq<string>, size: int, loadable: string -> bool): (f: Font)
    ensures f.DefaultBitmap? <==> forall i :: 0 <= i < |candidates| ==> !loadable(candidates[i])
    ensures f.TrueType? ==> f.size == size && exists i :: (0 <= i < |candidates| && candidates[i] == f.path
      && loadable(f.path) && forall j :: 0 <= j < i ==> !loadable(candidates[j]))
  {
    if candidates == [] then DefaultBitmap
    else if loadable(candidates[0]) then TrueType(candidates[0], size)
    else
      assert forall i :: 1 <= i < |candidates| ==> candidates[i] == candidates[1..][i - 1];
      ChooseFont(candidates[1..], size, loadable)
  }

  const CompositeFonts: seq<string> := [
    "/usr/share/fonts/liberation-serif/LiberationSerif-Bold.ttf",
    "/usr/share/fonts/dejavu-sans-fonts/DejaVuSans-Bold.ttf",
    "/usr/share/fonts/liberation-sans/LiberationSans-Bold.ttf"]

  const PanelFonts: seq<string> := [
    "/usr/share/fonts/truetype/dejavu/DejaVuSans-Bold.ttf",
    "/usr/share/fonts/truetype/liberation/LiberationSans-Bold.ttf",
    "/System/Library/Fonts/Arial.ttf",
    "/Windows/Fonts/arial.ttf"]

  /** The white draws of outline row `dx`, for `dy` from `-w` up to (not including) `dyEnd`, skipping the centre. */
  function OutlineRow(text: string, tx: int, ty: int, w: int, font: Font, dx: int, dyEnd: int): seq<DrawCall>
    decreases dyEnd + w
  {
    if dyEnd <= -w then []
    else
      var dy := dyEnd - 1;
      OutlineRow(text, tx, ty, w, font, dx, dy)
        + (if dx != 0 || dy != 0 then [DrawText(tx + dx, ty + dy, text, White, font)] else [])
  }

  /** The outline rows for `dx` from `-w` up to (not including) `dxEnd`. */
  function OutlineRows(text: string, tx: int, ty: int, w: int, font: Font, dxEnd: int): seq<DrawCall>
    decreases dxEnd + w
  {
    if dxEnd <= -w then []
    else OutlineRows(text, tx, ty, w, font, dxEnd - 1) + OutlineRow(text, tx, ty, w, font, dxEnd - 1, w + 1)
  }

  /** All draws of one label: the white halo at every offset in [-w, w]^2 but the centre, then black on top. */
  function LabelPlan(text: string, tx: int, ty: int, w: int, font: Font): seq<DrawCall>
  {
    OutlineRows(text, tx, ty, w, font, w + 1) + [DrawText(tx, ty, text, Black, font)]
  }

  /** `d` is a white outline draw of `text` at an offset of at most `w` in each axis, other than the centre. */
  predicate IsHaloDraw(d: DrawCall, text: string, tx: int, ty: int, w: int, font: Font)
  {
    d.fill == White && d.text == text && d.font == font
    && -w <= d.x - tx <= w && -w <= d.y - ty <= w && (d.x != tx || d.y != ty)
  }

  /** Row `dx` of the halo up to `dyEnd` draws once per offset, the centre excepted. */
  lemma {:induction false} OutlineRowLength(text: string, tx: int, ty: int, w: int, font: Font, dx: int, dyEnd: int)
    requires 0 <= w && -w <= dyEnd
    ensures |OutlineRow(text, tx, ty, w, font, dx, dyEnd)| == dyEnd + w - (if dx == 0 && 0 < dyEnd then 1 else 0)
    decreases dyEnd + w
  {
    if dyEnd > -w {
      var dy := dyEnd - 1;
      OutlineRowLength(text, tx, ty, w, font, dx, dy);
      var extra := if dx != 0 || dy != 0 then [DrawText(tx + dx, ty + dy, text, White, font)] else [];
      assert OutlineRow(text, tx, ty, w, font, dx, dyEnd) == OutlineRow(text, tx, ty, w, font, dx, dy) + extra;
    }
  }

  /** Row `dx` of the halo up to `dyEnd` holds exactly the halo draws in column `dx` above `dyEnd`. */
  lemma {:induction false} OutlineRowMembers(text: string, tx: int, ty: int, w: int, font: Font, dx: int, dyEnd: int)
    requires -w <= dx <= w && -w <= dyEnd <= w + 1
    ensures forall d :: d in OutlineRow(text, tx, ty, w, font, dx, dyEnd) <==>
      IsHaloDraw(d, text, tx, ty, w, font) && d.x == tx + dx && d.y < ty + dyEnd
    decreases dyEnd + w
  {
    if dyEnd > -w {
      var dy := dyEnd - 1;
      OutlineRowMembers(text, tx, ty, w, font, dx, dy);
      var prev := OutlineRow(text, tx, ty, w, font, dx, dy);
      var extra := if dx != 0 || dy != 0 then [DrawText(tx + dx, ty + dy, text, White, font)] else [];
      assert OutlineRow(text, tx, ty, w, font, dx, dyEnd) == prev + extra;
      forall d ensures d in prev + extra <==> IsHaloDraw(d, text, tx, ty, w, font) && d.x == tx + dx && d.y < ty + dyEnd {
        if IsHaloDraw(d, text, tx, ty, w, font) && d.x == tx + dx && d.y == ty + dy {
          assert d == DrawText(tx + dx, ty + dy, text, White, font);
        }
      }
    }
  }

  lemma {:induction false} OutlineRowsLength(text: string, tx: int, ty: int, w: int, font: Font, dxEnd: int)
    requires -w <= dxEnd <= w + 1
    ensures |OutlineRows(text, tx, ty, w, font, dxEnd)| == (dxEnd + w) * (2 * w + 1) - (if 0 < dxEnd then 1 else 0)
    decreases dxEnd + w
  {
    if dxEnd > -w {
      var prev := OutlineRows(text, tx, ty, w, font, dxEnd - 1);
      var row := OutlineRow(text, tx, ty, w, font, dxEnd - 1, w + 1);
      OutlineRowsLength(text, tx, ty, w, font, dxEnd - 1);
      OutlineRowLength(text, tx, ty, w, font, dxEnd - 1, w + 1);
      assert |row| == 2 * w + 1 - (if dxEnd == 1 then 1 else 0);
      MulSucc(dxEnd - 1 + w, 2 * w + 1);
    }
  }

  lemma {:induction false} OutlineRowsMembers(text: string, tx: int, ty: int, w: int, font: Font, dxEnd: int)
    requires -w <= dxEnd <= w + 1
    ensures forall d :: d in OutlineRows(text, tx, ty, w, font, dxEnd) <==> IsHaloDraw(d, text, tx, ty, w, font) && d.x < tx + dxEnd
    decreases dxEnd + w
  {
    if dxEnd > -w {
      var prev := OutlineRows(text, tx, ty, w, font, dxEnd - 1);
      var row := OutlineRow(text, tx, ty, w, font, dxEnd - 1, w + 1);
      OutlineRowsMembers(text, tx, ty, w, font, dxEnd - 1);
      OutlineRowMembers(text, tx, ty, w, font, dxEnd - 1, w + 1);
      assert OutlineRows(text, tx, ty, w, font, dxEnd) == prev + row;
      forall d ensures d in prev + row <==> IsHaloDraw(d, text, tx, ty, w, font) && d.x < tx + dxEnd {
        assert d in prev + row <==> d in prev || d in row;
      }
    }
  }

  /**
   * A label plan with outline width `w` makes (2w+1)^2 - 1 white draws, at exactly the offsets of the
   * [-w, w]^2 square other than the centre, followed by one black draw at the anchor.
   */
  lemma LabelPlanShape(text: string, tx: int, ty: int, w: int, font: Font)
    requires w >= 0
    ensures var p := LabelPlan(text, tx, ty, w, font);
      |p| == (2 * w + 1) * (2 * w + 1)
      && p[|p| - 1] == DrawText(tx, ty, text, Black, font)
      && forall d :: d in p[..|p| - 1] <==> IsHaloDraw(d, text, tx, ty, w, font)
  {
    var halo := OutlineRows(text, tx, ty, w, font, w + 1);
    var p := LabelPlan(text, tx, ty, w, font);
    assert p == halo + [DrawText(tx, ty, text, Black, font)];
    OutlineRowsLength(text, tx, ty, w, font, w + 1);
    assert |halo| + 1 == (2 * w + 1) * (2 * w + 1);
    assert p[..|p| - 1] == halo;
    OutlineRowsMembers(text, tx, ty, w, font, w + 1);
  }

  /** `margin + (box_size - padding) // 3` of `add_panel_label`. */
  function LabelInset(): int
  {
    30 + (120 - 20) / 3
  }

  /** The draws `tile_images` makes: one composite label per placed panel, in placement order. */
  function LabelDraws(ps: seq<Placement>, font: Font): seq<DrawCall>
  {
    if ps == [] then []
    else
      var p := ps[|ps| - 1];
      LabelDraws(ps[..|ps| - 1], font) + LabelPlan([p.letter], p.x + 80, p.y + 80, 5, font)
  }

  // ================================================================ the canvas

  /** An RGB image being drawn on: a pixel grid of fixed size and the log of text draws made on it. */
  class Canvas {
    const width: nat
    const height: nat
    const pixels: array2<Pixel>
    var draws: seq<DrawCall>

    ghost predicate Valid()
      reads this
    {
      pixels.Length0 == width && pixels.Length1 == height
    }

    /** `Image.new("RGB", (w, h), "white")`. */
    constructor (w: nat, h: nat)
      ensures Valid() && width == w && height == h && fresh(pixels) && draws == []
      ensures forall x, y :: 0 <= x < w && 0 <= y < h ==> pixels[x, y] == WhitePixel
    {
      width, height := w, h;
      pixels := new Pixel[w, h]((x, y) => WhitePixel);
      draws := [];
    }

    /** `paste(panel, (x, y))` of a `w` x `h` panel labelled `letter`: the part of its rectangle inside the canvas is overwritten. */
    method Paste(letter: char, x: int, y: int, w: nat, h: nat)
      requires Valid()
      modifies pixels
      ensures forall px, py :: 0 <= px < width && 0 <= py < height ==>
        pixels[px, py] == if InRect(px, py, x, y, w, h) then FromPanel(letter, px - x, py - y) else old(pixels[px, py])
    {
      var x0 := if x < 0 then 0 else x;
      var x1 := if x + w > width then width else x + w;
      var y0 := if y < 0 then 0 else y;
      var y1 := if y + h > height then height else y + h;
      if x1 < x0 { x1 := x0; }
      if y1 < y0 { y1 := y0; }
      var px := x0;
      while px < x1
        invariant x0 <= px <= x1
        invariant forall qx, qy :: 0 <= qx < width && 0 <= qy < height ==>
          pixels[qx, qy] == if x0 <= qx < px && y0 <= qy < y1 then FromPanel(letter, qx - x, qy - y) else old(pixels[qx, qy])
      {
        var py := y0;
        while py < y1
          invariant y0 <= py <= y1
          invariant forall qx, qy :: 0 <= qx < width && 0 <= qy < height ==>
            pixels[qx, qy] == if (x0 <= qx < px && y0 <= qy < y1) || (qx == px && y0 <= qy < py)
                              then FromPanel(letter, qx - x, qy - y) else old(pixels[qx, qy])
        {
          pixels[px, py] := FromPanel(letter, px - x, py - y);
          py := py + 1;
        }
        px := px + 1;
      }
    }

    /** `draw.text(...)`: recorded, glyphs are not rasterised. */
    method DrawTextCall(d: DrawCall)
      modifies this`draws
      ensures draws == old(draws) + [d]
    {
      draws := draws + [d];
    }

    /** The inner loop of the outline: white draws at offsets (dx, -w) .. (dx, w), skipping the centre. */
    method DrawOutlineRow(text: string, tx: int, ty: int, w: int, font: Font, dx: int)
      requires w >= 0
      modifies this`draws
      ensures draws == old(draws) + OutlineRow(text, tx, ty, w, font, dx, w + 1)
    {
      var dy := -w;
      while dy <= w
        invariant -w <= dy <= w + 1
        invariant draws == old(draws) + OutlineRow(text, tx, ty, w, font, dx, dy)
      {
        if dx != 0 || dy != 0 {
          DrawTextCall(DrawText(tx + dx, ty + dy, text, White, font));
        }
        dy := dy + 1;
      }
    }

    /** The outline-then-fill loop shared by both label functions: white at every non-centre offset, then black. */
    method DrawLabel(text: string, tx: int, ty: int, w: int, font: Font)
      requires w >= 0
      modifies this`draws
      ensures draws == old(draws) + LabelPlan(text, tx, ty, w, font)
    {
      var dx := -w;
      while dx <= w
        invariant -w <= dx <= w + 1
        invariant draws == old(draws) + OutlineRows(text, tx, ty, w, font, dx)
      {
        DrawOutlineRow(text, tx, ty, w, font, dx);
        dx := dx + 1;
      }
      DrawTextCall(DrawText(tx, ty, text, Black, font));
    }
  }

  /** `add_panel_label(image, label)`: anchor (63, 63), outline width 4; the font is the first loadable of its list at `fontSize`. */
  method AddPanelLabel(image: Canvas, letter: string, fontSize: int, loadable: string -> bool)
    modifies image`draws
    ensures image.draws == old(image.draws) + LabelPlan(letter, 63, 63, 4, ChooseFont(PanelFonts, fontSize, loadable))
  {
    var font := ChooseFont(PanelFonts, fontSize, loadable);
    image.DrawLabel(letter, LabelInset(), LabelInset(), 4, font);
  }

  /** `add_panel_label_to_composite`: anchor at the panel corner plus 80, outline width 5, font size 200. */
  method AddPanelLabelToComposite(composite: Canvas, letter: char, panelX: int, panelY: int, loadable: string -> bool)
    modifies composite`draws
    ensures composite.draws == old(composite.draws)
      + LabelPlan([letter], panelX + 80, panelY + 80, 5, ChooseFont(CompositeFonts, 200, loadable))
  {
    var font := ChooseFont(CompositeFonts, 200, loadable);
    composite.DrawLabel([letter], panelX + 80, panelY + 80, 5, font);
  }

  // ================================================================ tiling

  predicate SortedLabels(s: seq<char>)
  {
    forall i, j :: 0 <= i < j < |s| ==> s[i] <= s[j]
  }

  /** `sorted(images.keys())`. */
  function SortLabels(labels: seq<char>): (r: seq<char>)
    ensures |r| == |labels| && SortedLabels(r)
    ensures forall c :: c in r <==> c in labels
  {
    if labels == [] then []
    else
      var r := InsertLabel(labels[0], SortLabels(labels[1..]));
      assert forall c :: c in labels <==> c == labels[0] || c in labels[1..];
      r
  }

  function InsertLabel(c: char, s: seq<char>): (r: seq<char>)
    requires SortedLabels(s)
    ensures |r| == |s| + 1 && SortedLabels(r)
    ensures forall x :: x in r <==> x == c || x in s
  {
    if s == [] || c <= s[0] then [c] + s
    else
      var t := InsertLabel(c, s[1..]);
      assert forall x :: x in s <==> x == s[0] || x in s[1..];
      assert forall k :: 0 <= k < |t| ==> s[0] <= t[k] by {
        forall k | 0 <= k < |t| ensures s[0] <= t[k] {
          assert t[k] in t;
          if t[k] != c {
            var m :| 0 <= m < |s[1..]| && s[1..][m] == t[k];
            assert s[m + 1] == t[k];
          }
        }
      }
      [s[0]] + t
  }

  /**
   * How a tiling run ends: saved; `False` for no panels or a panel that does not open; or an
   * exception that escapes `tile_images`: from resizing a panel, from `Image.new` for a negative
   * canvas size, or from `composite.save`.
   */
  datatype TileStatus = Saved | NoPanels | LoadFailed(path: string) | ResizeFailed(path: string) | NegativeCanvas | SaveFailed

  predicate AllReadable(panels: seq<PanelFile>, decode: string -> Option<Size>)
  {
    forall i :: 0 <= i < |panels| ==> decode(panels[i].path).Some?
  }

  /** The index of the first `false`, if any. */
  function FirstFalse(oks: seq<bool>): (r: Option<nat>)
    ensures r.None? <==> forall i :: 0 <= i < |oks| ==> oks[i]
    ensures r.Some? ==> r.value < |oks| && !oks[r.value] && forall j :: 0 <= j < r.value ==> oks[j]
  {
    if oks == [] then None
    else if !oks[0] then Some(0)
    else
      var rest := FirstFalse(oks[1..]);
      assert forall i :: 1 <= i < |oks| ==> oks[i] == oks[1..][i - 1];
      match rest
      case None => None
      case Some(i) => Some(i + 1)
  }

  /** The index of the first panel whose file does not decode, if any. */
  function FirstUnreadable(panels: seq<PanelFile>, decode: string -> Option<Size>): (r: Option<nat>)
    ensures r.None? <==> AllReadable(panels, decode)
    ensures r.Some? ==> (r.value < |panels| && decode(panels[r.value].path).None?
      && forall j :: 0 <= j < r.value ==> decode(panels[j].path).Some?)
  {
    var oks := seq(|panels|, i requires 0 <= i < |panels| => decode(panels[i].path).Some?);
    assert forall i :: 0 <= i < |panels| ==> oks[i] == decode(panels[i].path).Some?;
    FirstFalse(oks)
  }

  /**
   * `images[label].resize(target)` succeeds: the panel's pixel data decodes (`pixels` says so for
   * its file), and the target has no empty side unless the panel already has the target size.
   */
  predicate Resizes(panel: PanelFile, decode: string -> Option<Size>, pixels: string -> bool, target: Size)
    requires decode(panel.path).Some?
  {
    pixels(panel.path) && (decode(panel.path).value == target || (target.width > 0 && target.height > 0))
  }

  predicate AllResize(panels: seq<PanelFile>, decode: string -> Option<Size>, pixels: string -> bool, target: Size)
    requires AllReadable(panels, decode)
  {
    forall i :: 0 <= i < |panels| ==> Resizes(panels[i], decode, pixels, target)
  }

  /** The index of the first panel whose resize raises, if any. */
  function FirstUnresizable(panels: seq<PanelFile>, decode: string -> Option<Size>, pixels: string -> bool, target: Size): (r: Option<nat>)
    requires AllReadable(panels, decode)
    ensures r.None? <==> AllResize(panels, decode, pixels, target)
    ensures r.Some? ==> (r.value < |panels| && !Resizes(panels[r.value], decode, pixels, target)
      && forall j :: 0 <= j < r.value ==> Resizes(panels[j], decode, pixels, target))
  {
    var oks := seq(|panels|, i requires 0 <= i < |panels| => Resizes(panels[i], decode, pixels, target));
    assert forall i :: 0 <= i < |panels| ==> oks[i] == Resizes(panels[i], decode, pixels, target);
    FirstFalse(oks)
  }

  /** The dict of loaded panels, in the order of `panels`. */
  function Loaded(panels: seq<PanelFile>, decode: string -> Option<Size>): seq<(char, Size)>
    requires AllReadable(panels, decode)
  {
    seq(|panels|, i requires 0 <= i < |panels| => (panels[i].letter, decode(panels[i].path).value))
  }

  function LabelsOf(panels: seq<PanelFile>): seq<char>
  {
    seq(|panels|, i requires 0 <= i < |panels| => panels[i].letter)
  }

  /** The grid, the panel size and the placements `tile_images` uses once every panel has loaded. */
  function TileGrid(panels: seq<PanelFile>): Grid
  {
    CalculateLayout(|panels|)
  }

  function TileTarget(panels: seq<PanelFile>, decode: string -> Option<Size>): Size
    requires AllReadable(panels, decode)
  {
    CanonicalSize(Loaded(panels, decode))
  }

  function TilePlacements(panels: seq<PanelFile>, decode: string -> Option<Size>, spacing: int): seq<Placement>
    requires panels != [] && AllReadable(panels, decode)
  {
    LayoutFits(|panels|);
    Placements(SortLabels(LabelsOf(panels)), TileGrid(panels), TileTarget(panels, decode), spacing)
  }

  /**
   * The outcome `tile_images` reaches for the given panels, decoder, pixel decoder, spacing and
   * save outcome (`saved` is false when `composite.save` raises).
   */
  function TileOutcome(panels: seq<PanelFile>, decode: string -> Option<Size>, pixels: string -> bool,
                       spacing: int, saved: bool): TileStatus
  {
    if panels == [] then NoPanels
    else match FirstUnreadable(panels, decode)
      case Some(i) => LoadFailed(panels[i].path)
      case None =>
        var target := TileTarget(panels, decode);
        match FirstUnresizable(panels, decode, pixels, target)
        case Some(i) => ResizeFailed(panels[i].path)
        case None =>
          var g := TileGrid(panels);
          if CanvasWidth(g, target, spacing) < 0 || CanvasHeight(g, target, spacing) < 0 then NegativeCanvas
          else if saved then Saved
          else SaveFailed
  }

  /**
   * A run saves only when there are panels, all of them open and resize, and the save succeeds;
   * with non-negative spacing those conditions are also enough.
   */
  lemma TileOutcomeSaved(panels: seq<PanelFile>, decode: string -> Option<Size>, pixels: string -> bool,
                         spacing: int, saved: bool)
    ensures TileOutcome(panels, decode, pixels, spacing, saved) == Saved ==>
      panels != [] && AllReadable(panels, decode) && AllResize(panels, decode, pixels, TileTarget(panels, decode)) && saved
    ensures spacing >= 0 ==>
      (TileOutcome(panels, decode, pixels, spacing, saved) == Saved <==>
         panels != [] && AllReadable(panels, decode) && AllResize(panels, decode, pixels, TileTarget(panels, decode)) && saved)
  {
    if spacing >= 0 && panels != [] && AllReadable(panels, decode) {
      var g := TileGrid(panels);
      var target := TileTarget(panels, decode);
      LayoutFits(|panels|);
      MulLeft(0, g.cols, target.width);
      MulLeft(0, g.rows, target.height);
      MulLeft(0, g.cols - 1, spacing);
      MulLeft(0, g.rows - 1, spacing);
    }
  }

  /** The file opens as an image with no empty side, and its pixel data decodes. */
  predicate Usable(path: string, decode: string -> Option<Size>, pixels: string -> bool)
  {
    pixels(path) && decode(path).Some? && decode(path).value.width > 0 && decode(path).value.height > 0
  }

  /** Panels that are all usable all resize to the target. */
  lemma ReadablePanelsResize(panels: seq<PanelFile>, decode: string -> Option<Size>, pixels: string -> bool)
    requires forall i :: 0 <= i < |panels| ==> Usable(panels[i].path, decode, pixels)
    ensures AllReadable(panels, decode)
    ensures AllResize(panels, decode, pixels, TileTarget(panels, decode))
  {
    var images := Loaded(panels, decode);
    var r := FirstStandardSize(images);
    if r.Some? {
      var k :| 0 <= k < |images| && IsStandardLabel(images[k].0) && images[k].1 == r.value
        && forall j :: 0 <= j < k ==> !IsStandardLabel(images[j].0);
      assert TileTarget(panels, decode) == decode(panels[k].path).value;
    }
  }

  /** The saved composite: its size, the pixel every cell shows, and the labels drawn on it in order. */
  ghost predicate ComposedAs(c: Canvas, panels: seq<PanelFile>, decode: string -> Option<Size>, spacing: int, loadable: string -> bool)
    reads c, c.pixels
  {
    c.Valid() && panels != [] && AllReadable(panels, decode)
    && var g := TileGrid(panels);
       var target := TileTarget(panels, decode);
       var ps := TilePlacements(panels, decode, spacing);
       c.width == CanvasWidth(g, target, spacing) && c.height == CanvasHeight(g, target, spacing)
       && Shows(c, ps, target)
       && c.draws == LabelDraws(ps, ChooseFont(CompositeFonts, 200, loadable))
  }

  /** Every pixel of the canvas is the one the placements `ps` leave on a white background. */
  ghost predicate Shows(canvas: Canvas, ps: seq<Placement>, target: Size)
    reads canvas.pixels
  {
    forall px, py :: 0 <= px < canvas.pixels.Length0 && 0 <= py < canvas.pixels.Length1 ==>
      canvas.pixels[px, py] == PixelAfter(ps, target, px, py)
  }

  /** The canvas after the first `k` placements have been pasted and labelled. */
  ghost predicate PlacedUpTo(canvas: Canvas, ps: seq<Placement>, target: Size, k: nat, font: Font)
    reads canvas, canvas.pixels
    requires canvas.Valid() && k <= |ps|
  {
    Shows(canvas, ps[..k], target) && canvas.draws == LabelDraws(ps[..k], font)
  }

  /** One turn of the placement loop: paste panel `k` at its cell, then draw its label. */
  method PlaceOne(canvas: Canvas, ps: seq<Placement>, target: Size, k: nat, loadable: string -> bool)
    requires canvas.Valid() && k < |ps|
    requires PlacedUpTo(canvas, ps, target, k, ChooseFont(CompositeFonts, 200, loadable))
    modifies canvas.pixels, canvas`draws
    ensures canvas.Valid() && PlacedUpTo(canvas, ps, target, k + 1, ChooseFont(CompositeFonts, 200, loadable))
  {
    var p := ps[k];
    ghost var font := ChooseFont(CompositeFonts, 200, loadable);
    canvas.Paste(p.letter, p.x, p.y, target.width, target.height);
    forall px, py | 0 <= px < canvas.pixels.Length0 && 0 <= py < canvas.pixels.Length1
      ensures canvas.pixels[px, py] == PixelAfter(ps[..k + 1], target, px, py)
    {
      PixelAfterSnoc(ps, k, target, px, py);
    }
    assert Shows(canvas, ps[..k + 1], target);
    AddPanelLabelToComposite(canvas, p.letter, p.x, p.y, loadable);
    LabelDrawsSnoc(ps, k, font);
  }

  /** Labelling placement `k` extends the label draws of the first `k` placements. */
  lemma LabelDrawsSnoc(ps: seq<Placement>, k: nat, font: Font)
    requires k < |ps|
    ensures LabelDraws(ps[..k + 1], font)
      == LabelDraws(ps[..k], font) + LabelPlan([ps[k].letter], ps[k].x + 80, ps[k].y + 80, 5, font)
  {
    assert ps[..k + 1][..k] == ps[..k];
  }

  /** Pasting placement `k` overwrites its rectangle and leaves the pixel of the first `k` placements elsewhere. */
  lemma PixelAfterSnoc(ps: seq<Placement>, k: nat, target: Size, px: int, py: int)
    requires k < |ps|
    ensures PixelAfter(ps[..k + 1], target, px, py)
      == if InRect(px, py, ps[k].x, ps[k].y, target.width, target.height) then FromPanel(ps[k].letter, px - ps[k].x, py - ps[k].y)
         else PixelAfter(ps[..k], target, px, py)
  {
    assert ps[..k + 1][..k] == ps[..k];
  }

  /**
   * The placement loop of `tile_images` on a fresh white canvas: pastes and labels the panels in order,
   * stopping once `capacity` (rows x cols) cells are filled.
   */
  method PlacePanels(canvas: Canvas, ps: seq<Placement>, target: Size, capacity: int, loadable: string -> bool)
    returns (placed: nat)
    requires canvas.Valid() && canvas.draws == []
    requires forall px, py :: 0 <= px < canvas.width && 0 <= py < canvas.height ==> canvas.pixels[px, py] == WhitePixel
    modifies canvas.pixels, canvas`draws
    ensures placed == if capacity < 0 then 0 else if |ps| < capacity then |ps| else capacity
    ensures canvas.Valid() && PlacedUpTo(canvas, ps, target, placed, ChooseFont(CompositeFonts, 200, loadable))
  {
    var k := 0;
    while k < |ps|
      invariant 0 <= k <= |ps| && (capacity < 0 ==> k == 0) && (capacity >= 0 ==> k <= capacity)
      invariant canvas.Valid() && PlacedUpTo(canvas, ps, target, k, ChooseFont(CompositeFonts, 200, loadable))
    {
      if k >= capacity {
        break;
      }
      PlaceOne(canvas, ps, target, k, loadable);
      k := k + 1;
    }
    placed := k;
  }

  /** Image.open for every panel in turn; the first that fails is reported. */
  method LoadPanels(panels: seq<PanelFile>, decode: string -> Option<Size>) returns (failed: Option<nat>, images: seq<(char, Size)>)
    ensures failed == FirstUnreadable(panels, decode)
    ensures failed.None? ==> images == Loaded(panels, decode)
  {
    images := [];
    var i := 0;
    while i < |panels|
      invariant 0 <= i <= |panels|
      invariant forall j :: 0 <= j < i ==> decode(panels[j].path).Some?
      invariant images == seq(i, j requires 0 <= j < i => (panels[j].letter, decode(panels[j].path).value))
    {
      var img := decode(panels[i].path);
      if img.None? {
        return Some(i), images;
      }
      images := images + [(panels[i].letter, img.value)];
      i := i + 1;
    }
    return None, images;
  }

  /**
   * `images[label] = images[label].resize(target)` for every label in turn: the first panel whose
   * resize raises is reported; otherwise the keys are kept and every size is now the target.
   */
  method ResizeAll(panels: seq<PanelFile>, decode: string -> Option<Size>, pixels: string -> bool,
                   images: seq<(char, Size)>, target: Size)
    returns (failed: Option<nat>, resized: seq<(char, Size)>)
    requires AllReadable(panels, decode) && images == Loaded(panels, decode)
    ensures failed == FirstUnresizable(panels, decode, pixels, target)
    ensures failed.None? ==> |resized| == |images| && forall j :: 0 <= j < |images| ==> resized[j] == (images[j].0, target)
  {
    resized := images;
    var i := 0;
    while i < |images|
      invariant 0 <= i <= |images| && |resized| == |images|
      invariant forall j :: 0 <= j < |images| ==> resized[j].0 == images[j].0
      invariant forall j :: 0 <= j < i ==> resized[j].1 == target
      invariant forall j :: 0 <= j < i ==> Resizes(panels[j], decode, pixels, target)
    {
      if !(pixels(panels[i].path) && (images[i].1 == target || (target.width > 0 && target.height > 0))) {
        return Some(i), resized;
      }
      resized := resized[i := (resized[i].0, target)];
      i := i + 1;
    }
    failed := None;
  }

  /** Once every panel is readable and resized, `tile_images` fails in `Image.new` or in the save, or saves. */
  lemma OutcomeOfResized(panels: seq<PanelFile>, decode: string -> Option<Size>, pixels: string -> bool,
                         spacing: int, saved: bool)
    requires panels != [] && AllReadable(panels, decode) && AllResize(panels, decode, pixels, TileTarget(panels, decode))
    ensures var g := TileGrid(panels);
      var target := TileTarget(panels, decode);
      TileOutcome(panels, decode, pixels, spacing, saved)
        == if CanvasWidth(g, target, spacing) < 0 || CanvasHeight(g, target, spacing) < 0 then NegativeCanvas
           else if saved then Saved else SaveFailed
  {
  }

  /** The part of `tile_images` after loading: grid, canonical size, resizing, the canvas, placement, the save. */
  method Compose(panels: seq<PanelFile>, decode: string -> Option<Size>, pixels: string -> bool,
                 images: seq<(char, Size)>, spacing: int, saved: bool, loadable: string -> bool)
    returns (status: TileStatus, composite: Canvas?)
    requires panels != [] && AllReadable(panels, decode) && images == Loaded(panels, decode)
    ensures status == TileOutcome(panels, decode, pixels, spacing, saved)
    ensures status == Saved ==> composite != null && ComposedAs(composite, panels, decode, spacing, loadable)
  {
    var g := CalculateLayout(|images|);
    LayoutFits(|images|);
    var target := CanonicalSize(images);
    var failed, resized := ResizeAll(panels, decode, pixels, images, target);
    if failed.Some? {
      return ResizeFailed(panels[failed.value].path), null;
    }
    // every resized panel has the target size, so each paste below covers one `target` cell
    assert forall j :: 0 <= j < |resized| ==> resized[j].1 == target;
    OutcomeOfResized(panels, decode, pixels, spacing, saved);
    var totalWidth := CanvasWidth(g, target, spacing);
    var totalHeight := CanvasHeight(g, target, spacing);
    if totalWidth < 0 || totalHeight < 0 {
      return NegativeCanvas, null;
    }
    var canvas := new Canvas(totalWidth, totalHeight);
    var ps := Placements(SortLabels(LabelsOf(panels)), g, target, spacing);
    assert ps == TilePlacements(panels, decode, spacing);
    var capacity := g.rows * g.cols;
    assert |ps| == |panels| == |images| <= capacity;
    var placed := PlacePanels(canvas, ps, target, capacity, loadable);
    assert placed == |ps|;
    if !saved {
      return SaveFailed, null;
    }
    ComposedFromPlaced(canvas, panels, decode, spacing, loadable);
    return Saved, canvas;
  }

  /** A canvas of the composite's size on which every placement has been pasted and labelled is the composite. */
  lemma ComposedFromPlaced(c: Canvas, panels: seq<PanelFile>, decode: string -> Option<Size>, spacing: int, loadable: string -> bool)
    requires c.Valid() && panels != [] && AllReadable(panels, decode)
    requires c.width == CanvasWidth(TileGrid(panels), TileTarget(panels, decode), spacing)
    requires c.height == CanvasHeight(TileGrid(panels), TileTarget(panels, decode), spacing)
    requires PlacedUpTo(c, TilePlacements(panels, decode, spacing), TileTarget(panels, decode),
                        |TilePlacements(panels, decode, spacing)|, ChooseFont(CompositeFonts, 200, loadable))
    ensures ComposedAs(c, panels, decode, spacing, loadable)
  {
    var ps := TilePlacements(panels, decode, spacing);
    assert ps[..|ps|] == ps;
  }

  /**
   * `tile_images`: loads every panel (the first that fails ends the run with `False`), picks the grid
   * and the canonical size, resizes every panel to it, allocates the white canvas, pastes and
   * labels the panels in sorted-label order, and saves the composite.
   */
  method TileImages(panels: seq<PanelFile>, decode: string -> Option<Size>, pixels: string -> bool,
                    spacing: int, saved: bool, loadable: string -> bool)
    returns (status: TileStatus, composite: Canvas?)
    ensures status == TileOutcome(panels, decode, pixels, spacing, saved)
    ensures status == Saved ==> composite != null && ComposedAs(composite, panels, decode, spacing, loadable)
  {
    if panels == [] {
      return NoPanels, null;
    }
    var failed, images := LoadPanels(panels, decode);
    if failed.Some? {
      return LoadFailed(panels[failed.value].path), null;
    }
    status, composite := Compose(panels, decode, pixels, images, spacing, saved, loadable);
  }

  /**
   * `main`: discovers the panels; exits with 1 when there are none, otherwise tiles them and exits
   * with 0 exactly when the composite was saved. An exception escaping `tile_images` (a failing
   * resize, the ValueError of a negative canvas, a failing save) ends the interpreter with status 1.
   */
  method RunTiling(figureBase: string, searchDir: string, listing: seq<string>, decode: string -> Option<Size>,
                   pixels: string -> bool, spacing: int, saved: bool, loadable: string -> bool)
    returns (exitCode: int, composite: Canvas?)
    ensures PanelMap(FigureId(figureBase), searchDir, listing) == map[] ==> exitCode == 1
    ensures exitCode == 0 || exitCode == 1
    ensures exitCode == 0 ==> composite != null && composite.Valid() && saved
    ensures var m := PanelMap(FigureId(figureBase), searchDir, listing);
      (exists c :: c in m && (decode(m[c]).None? || !pixels(m[c]))) ==> exitCode == 1
    ensures var m := PanelMap(FigureId(figureBase), searchDir, listing);
      spacing >= 0 && m != map[] && saved
      && (forall c :: c in m ==> Usable(m[c], decode, pixels))
      ==> exitCode == 0
  {
    var panels := DetectPanels(figureBase, searchDir, listing);
    ghost var m := PanelMap(FigureId(figureBase), searchDir, listing);
    if panels == [] {
      return 1, null;
    }
    var status;
    status, composite := TileImages(panels, decode, pixels, spacing, saved, loadable);
    TileOutcomeSaved(panels, decode, pixels, spacing, saved);
    if forall c :: c in m ==> Usable(m[c], decode, pixels) {
      ReadablePanelsResize(panels, decode, pixels);
    }
    exitCode := if status == Saved then 0 else 1;
  }

  // ================================================================ scenarios

  /** `01a_x.jpg` is panel A of figure `01`. */
  lemma ExampleNameA()
    ensures IsPanelName("01", "01a_x.jpg") && PanelLetter("01", "01a_x.jpg") == 'A'
  {
    assert "01a_x.jpg"[..2] == "01" && "01a_x.jpg"[5..] == ".jpg";
  }

  /** `01B_y.jpg` is panel B of figure `01`. */
  lemma ExampleNameB()
    ensures IsPanelName("01", "01B_y.jpg") && PanelLetter("01", "01B_y.jpg") == 'B'
  {
    assert "01B_y.jpg"[..2] == "01" && "01B_y.jpg"[5..] == ".jpg";
  }

  /** `02a_z.jpg` belongs to another figure. */
  lemma ExampleNameOther()
    ensures !IsPanelName("01", "02a_z.jpg")
  {
    assert !StartsWith("02a_z.jpg", "01") by { assert "02a_z.jpg"[1] != '1'; }
  }

  /** The two panel paths of the discovery scenario. */
  lemma ExampleJoins()
    ensures PathChild("d", "01a_x.jpg") == "d/01a_x.jpg" && PathChild("d", "01B_y.jpg") == "d/01B_y.jpg"
  {
    var a, b := "01a_x.jpg", "01B_y.jpg";
    assert PlainName("d");
    PathChildPlain("d", a);
    PathChildPlain("d", b);
    assert "d" + "/" + a == "d/01a_x.jpg";
    assert "d" + "/" + b == "d/01B_y.jpg";
  }

  /** `./d` and `d/` name the same directory as `d`, and the panel path is spelled the same. */
  lemma ExampleJoinsNormalised()
    ensures PathChild("./d", "01a_x.jpg") == "d/01a_x.jpg" && PathChild("d/", "01a_x.jpg") == "d/01a_x.jpg"
  {
    var a := "01a_x.jpg";
    assert PlainName("d");
    PathChildDotPrefix("d", a);
    PathChildTrailingSlash("d", a);
    assert "./" + "d" == "./d" && "d" + "/" == "d/";
    assert "d" + "/" + a == "d/01a_x.jpg";
  }

  /** Searching the current directory yields the bare file name. */
  lemma ExampleJoinCurrent()
    ensures PathChild(".", "01a_x.jpg") == "01a_x.jpg"
  {
    PathChildOfCurrent("01a_x.jpg");
  }

  /** Figure base `01_demo` has figure id `01`. */
  lemma FigureIdExample()
    ensures FigureId("01_demo") == "01"
  {
    FigureIdPrefix("01_demo");
    assert "01_demo"[2] == '_' && "01_demo"[..2] == "01";
  }

  /** Files `01a_x.jpg` and `01B_y.jpg` for figure base `01_demo` are panels A and B. */
  lemma DiscoveryExample()
    ensures PanelMap("01", "d", ["01a_x.jpg", "01B_y.jpg", "02a_z.jpg"]) == map['A' := "d/01a_x.jpg", 'B' := "d/01B_y.jpg"]
  {
    var a, b, z := "01a_x.jpg", "01B_y.jpg", "02a_z.jpg";
    ExampleNameA();
    ExampleNameB();
    ExampleNameOther();
    ExampleJoins();
    var names := [a, b, z];
    assert names[..2] == [a, b] && [a, b][..1] == [a];
    assert PanelMap("01", "d", [a]) == map['A' := PathChild("d", a)];
    assert PanelMap("01", "d", [a, b]) == map['A' := PathChild("d", a), 'B' := PathChild("d", b)];
  }

  /** Three 800 x 600 panels with spacing 20: a 1 x 3 grid, a 2440 x 600 canvas, corners at x = 0, 820 and 1640. */
  lemma ThreePanelExample()
    ensures CalculateLayout(3) == Grid(1, 3)
    ensures CanonicalSize([('A', Size(800, 600)), ('B', Size(800, 600)), ('C', Size(800, 600))]) == Size(800, 600)
    ensures CanvasWidth(Grid(1, 3), Size(800, 600), 20) == 2440 && CanvasHeight(Grid(1, 3), Size(800, 600), 20) == 600
    ensures Placements("ABC", Grid(1, 3), Size(800, 600), 20)
      == [Placement('A', 0, 0), Placement('B', 820, 0), Placement('C', 1640, 0)]
  {
  }
}
