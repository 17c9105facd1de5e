/**
 * The decision logic that internal/icon/icon.go and cmd/cli.go share line for line:
 * exact-colour matching, auto-background detection, colour-spec resolution and the
 * trim-bounds search. The two files differ only in the colour `transparent` resolves
 * to, which is a parameter here; modules Icon and Cli fix it.
 */
module Core {
  import opened Wrappers
  import opened Colors
  import opened Strings
  import Img

  const AutoColor: string := "auto"
  const TransparentColor: string := "transparent"
  const BackgroundDefaultColor: string := "#f1f5f9"

  /** Data and routines the core consults but does not define. */
  datatype Library = Library(
    svg: map<string, Color>,          // colornames.Map (SVG 1.1 names)
    material: map<string, Color>,     // materialdesign colornames.Map
    materialNames: seq<string>,       // materialdesign colornames.Names
    differs: (Color, Color) -> bool,  // colorcmp.CmpCIE76(c1, c2) > 0.02
    bright: Color -> bool)            // contrastColor: relative luminance > 0.5

  datatype Point = Point(x: int, y: int)
  datatype Rectangle = Rectangle(min: Point, max: Point)

  /** A decoded image with bounds (0,0)-(width, height); `outside` is what At returns off the grid. */
  datatype Image = Image(width: nat, height: nat, pixels: seq<seq<Color>>, outside: Color) {
    predicate Valid() {
      |pixels| == height && forall y :: 0 <= y < height ==> |pixels[y]| == width
    }

    function At(x: int, y: int): Color {
      if 0 <= y < |pixels| && 0 <= x < |pixels[y]| then pixels[y][x] else outside
    }

    function Bounds(): Rectangle {
      Rectangle(Point(0, 0), Point(width, height))
    }
  }

  // ---------------------------------------------------------------------------
  // isContainAnyColors

  /** `isContainAnyColors`: some listed colour has exactly the pixel's four RGBA() channels. */
  function IsContainAnyColors(colors: seq<Color>, img: Image, x: int, y: int): (found: bool)
    ensures found <==> exists i :: 0 <= i < |colors| && Channels(colors[i]) == Channels(img.At(x, y))
  {
    if colors == [] then false
    else if Channels(colors[0]) == Channels(img.At(x, y)) then true
    else
      var rest := IsContainAnyColors(colors[1..], img, x, y);
      assert forall i :: 1 <= i < |colors| ==> colors[i] == colors[1..][i - 1];
      rest
  }

  /** `utils.Uniq`: drops repeated colours, keeping the first of each. */
  function Uniq(s: seq<Color>): (r: seq<Color>)
    ensures forall c :: c in r <==> c in s
    ensures forall i, j :: 0 <= i < j < |r| ==> r[i] != r[j]
  {
    if s == [] then []
    else
      var rest := Uniq(s[..|s| - 1]);
      assert s == s[..|s| - 1] + [s[|s| - 1]];
      if s[|s| - 1] in rest then rest else rest + [s[|s| - 1]]
  }

  lemma UniqKeepsMatches(s: seq<Color>, img: Image, x: int, y: int)
    ensures IsContainAnyColors(Uniq(s), img, x, y) == IsContainAnyColors(s, img, x, y)
  {
    var u := Uniq(s);
    if IsContainAnyColors(s, img, x, y) {
      var i :| 0 <= i < |s| && Channels(s[i]) == Channels(img.At(x, y));
      assert s[i] in u;
    }
    if IsContainAnyColors(u, img, x, y) {
      var i :| 0 <= i < |u| && Channels(u[i]) == Channels(img.At(x, y));
      assert u[i] in s;
    }
  }

  // ---------------------------------------------------------------------------
  // calculateAutoBackgroundColor

  datatype Detection = Detection(c: Color, ok: bool)

  function Count(b: bool): nat {
    if b then 1 else 0
  }

  /** Cells (x, y) with x < n that differ from c. */
  function RowDiffs(differs: (Color, Color) -> bool, img: Image, c: Color, y: int, n: nat): nat {
    if n == 0 then 0 else RowDiffs(differs, img, c, y, n - 1) + Count(differs(c, img.At(n - 1, y)))
  }

  /** Cells (x, y) with y < n that differ from c. */
  function ColumnDiffs(differs: (Color, Color) -> bool, img: Image, c: Color, x: int, n: nat): nat {
    if n == 0 then 0 else ColumnDiffs(differs, img, c, x, n - 1) + Count(differs(c, img.At(x, n - 1)))
  }

  /** The four cells of a row the first loop inspects, spelled out. */
  lemma RowDiffsFour(differs: (Color, Color) -> bool, img: Image, c: Color, y: int)
    ensures RowDiffs(differs, img, c, y, 4) ==
      Count(differs(c, img.At(0, y))) + Count(differs(c, img.At(1, y)))
      + Count(differs(c, img.At(2, y))) + Count(differs(c, img.At(3, y)))
  {
    assert RowDiffs(differs, img, c, y, 1) == Count(differs(c, img.At(0, y)));
    assert RowDiffs(differs, img, c, y, 2) == RowDiffs(differs, img, c, y, 1) + Count(differs(c, img.At(1, y)));
    assert RowDiffs(differs, img, c, y, 3) == RowDiffs(differs, img, c, y, 2) + Count(differs(c, img.At(2, y)));
  }

  /** The four cells of a column the second loop inspects, spelled out. */
  lemma ColumnDiffsFour(differs: (Color, Color) -> bool, img: Image, c: Color, x: int)
    ensures ColumnDiffs(differs, img, c, x, 4) ==
      Count(differs(c, img.At(x, 0))) + Count(differs(c, img.At(x, 1)))
      + Count(differs(c, img.At(x, 2))) + Count(differs(c, img.At(x, 3)))
  {
    assert ColumnDiffs(differs, img, c, x, 1) == Count(differs(c, img.At(x, 0)));
    assert ColumnDiffs(differs, img, c, x, 2) == ColumnDiffs(differs, img, c, x, 1) + Count(differs(c, img.At(x, 1)));
    assert ColumnDiffs(differs, img, c, x, 3) == ColumnDiffs(differs, img, c, x, 2) + Count(differs(c, img.At(x, 2)));
  }

  /** The first loop's count: rows 2 .. yEnd-1, and in each the cells at x = 0..3. */
  function SideDiffs(differs: (Color, Color) -> bool, img: Image, c: Color, yEnd: int): nat
    decreases yEnd
  {
    if yEnd <= 2 then 0 else SideDiffs(differs, img, c, yEnd - 1) + RowDiffs(differs, img, c, yEnd - 1, 4)
  }

  /** The second loop's count: columns 0 .. xEnd-1, and in each the cells at y = 0..3. */
  function EdgeDiffs(differs: (Color, Color) -> bool, img: Image, c: Color, xEnd: nat): nat {
    if xEnd == 0 then 0 else EdgeDiffs(differs, img, c, xEnd - 1) + ColumnDiffs(differs, img, c, xEnd - 1, 4)
  }

  /** Every cell both loops of the detector count as different from the top-left pixel. */
  function DiffCount(differs: (Color, Color) -> bool, img: Image): nat {
    var c := img.At(0, 0);
    SideDiffs(differs, img, c, img.height - 2) + EdgeDiffs(differs, img, c, img.width)
  }

  /**
   * What `calculateAutoBackgroundColor` decides. `diffCnt / (4W + 4H) > 0.01` is
   * `100 * diffCnt > 4W + 4H` over the integers: both sides are exact and far apart
   * compared with float64 rounding.
   */
  function AutoBackground(differs: (Color, Color) -> bool, img: Image): (d: Detection)
    ensures d.c == img.At(0, 0)
    ensures d.ok <==> img.width > 8 && img.height > 8 && Alpha(img.At(0, 0)) != 0
                      && 100 * DiffCount(differs, img) <= 4 * (img.width + img.height)
  {
    var c := img.At(0, 0);
    if img.width <= 8 || img.height <= 8 then Detection(c, false)
    else if 100 * DiffCount(differs, img) > 4 * (img.width + img.height) then Detection(c, false)
    else if Alpha(c) == 0 then Detection(c, false)
    else Detection(c, true)
  }

  /**
   * `calculateAutoBackgroundColor`. Ranging over a four-element slice literal yields its
   * indices, so the scans visit x = 0..3 and y = 0..3, not the border coordinates the
   * literal lists.
   */
  method CalculateAutoBackgroundColor(differs: (Color, Color) -> bool, img: Image) returns (c: Color, ok: bool)
    ensures Detection(c, ok) == AutoBackground(differs, img)
  {
    c := img.At(0, 0);
    var diffCnt := 0;
    if img.width <= 8 || img.height <= 8 {
      return c, false;
    }
    var y := 2;
    while y < img.height - 2
      invariant 2 <= y <= img.height - 2
      invariant diffCnt == SideDiffs(differs, img, c, y)
    {
      for x := 0 to 4
        invariant diffCnt == SideDiffs(differs, img, c, y) + RowDiffs(differs, img, c, y, x)
      {
        var border := img.At(x, y);
        if differs(c, border) {
          diffCnt := diffCnt + 1;
        }
      }
      y := y + 1;
    }
    for x := 0 to img.width
      invariant diffCnt == SideDiffs(differs, img, c, img.height - 2) + EdgeDiffs(differs, img, c, x)
    {
      for yi := 0 to 4
        invariant diffCnt == SideDiffs(differs, img, c, img.height - 2) + EdgeDiffs(differs, img, c, x)
                             + ColumnDiffs(differs, img, c, x, yi)
      {
        var border := img.At(x, yi);
        if differs(c, border) {
          diffCnt := diffCnt + 1;
        }
      }
    }
    if 100 * diffCnt > 4 * (img.width + img.height) {
      return c, false;
    }
    if Alpha(c) == 0 {
      return c, false;
    }
    return c, true;
  }

  // ---------------------------------------------------------------------------
  // calculateColor

  /** The part of `calculateColor` after the auto branch: transparent, names, hex, fallback. */
  function ResolveName(lib: Library, transparent: Color, bg: string, fallback: string): (r: Outcome<Color>)
    requires fallback != ""
    ensures bg == TransparentColor ==> r == Returned(transparent)
    ensures bg != TransparentColor && !HasPrefix(bg, "#") && bg in lib.svg ==> r == Returned(lib.svg[bg])
    ensures bg != TransparentColor && !HasPrefix(bg, "#") && bg !in lib.svg && bg in lib.material ==>
      r == Returned(lib.material[bg])
    ensures Img.WellFormedHex(bg) ==> r == Returned(Img.ParseHexColor(bg).c)
    ensures bg != TransparentColor && (HasPrefix(bg, "#") || (bg !in lib.svg && bg !in lib.material))
            && (bg == [] || !Img.WellFormedHex(bg)) ==>
      r == if fallback == TransparentColor then Returned(transparent)
           else if Img.WellFormedHex(fallback) then Returned(Img.ParseHexColor(fallback).c)
           else Panicked("invalid hex color format")
  {
    assert !Img.WellFormedHex(TransparentColor);
    assert Img.WellFormedHex(bg) ==> bg[..1] == "#";
    if bg == TransparentColor then Returned(transparent)
    else if !HasPrefix(bg, "#") && bg in lib.svg then Returned(lib.svg[bg])
    else if !HasPrefix(bg, "#") && bg in lib.material then Returned(lib.material[bg])
    else
      var hex := if HasPrefix(bg, "#") then bg else fallback;
      var p := Img.ParseHexColor(hex);
      if p.err == None then Returned(p.c)
      else if fallback == TransparentColor then Returned(transparent)
      else
        var q := Img.ParseHexColor(fallback);
        if q.err == None then Returned(q.c) else Panicked("invalid hex color format")
  }

  /** The segment after the first comma of an `auto,<spec>` value, trimmed. */
  function AutoFallbackSegment(bg: string): string
    requires ',' in bg
  {
    TrimSpace(Split(bg, ',')[1])
  }

  /** `calculateColor(img, bg, fallback)`; a panic is an Outcome.Panicked. */
  function ResolveColor(lib: Library, transparent: Color, img: Image, bg: string, fallback: string): (r: Outcome<Color>)
    requires fallback != ""
    ensures HasPrefix(bg, AutoColor) && AutoBackground(lib.differs, img).ok ==> r == Returned(img.At(0, 0))
    ensures HasPrefix(bg, AutoColor) && !AutoBackground(lib.differs, img).ok && ',' !in bg ==>
      r == if Img.WellFormedHex(fallback) then Returned(Img.ParseHexColor(fallback).c)
           else Panicked("invalid hex color format")
    ensures HasPrefix(bg, AutoColor) && !AutoBackground(lib.differs, img).ok && ',' in bg ==>
      r == ResolveName(lib, transparent, AutoFallbackSegment(bg), fallback)
    ensures !HasPrefix(bg, AutoColor) ==> r == ResolveName(lib, transparent, bg, fallback)
  {
    if HasPrefix(bg, AutoColor) then
      var d := AutoBackground(lib.differs, img);
      if d.ok then Returned(d.c)
      else if ',' !in bg then
        var p := Img.ParseHexColor(fallback);
        if p.err == None then Returned(p.c) else Panicked("invalid hex color format")
      else ResolveName(lib, transparent, AutoFallbackSegment(bg), fallback)
    else ResolveName(lib, transparent, bg, fallback)
  }

  // ---------------------------------------------------------------------------
  // calculateTargetRect

  /** Columns when `vertical`, rows otherwise. */
  function LineCount(img: Image, vertical: bool): nat {
    if vertical then img.width else img.height
  }

  /** Column (or row) i holds a pixel that is not a trim colour. */
  predicate LineHasContent(trim: seq<Color>, img: Image, vertical: bool, i: int) {
    if vertical then exists y :: 0 <= y < img.height && !IsContainAnyColors(trim, img, i, y)
    else exists x :: 0 <= x < img.width && !IsContainAnyColors(trim, img, x, i)
  }

  /** The first line at or after i with content. */
  function FirstContent(trim: seq<Color>, img: Image, vertical: bool, i: nat): (r: Option<nat>)
    requires i <= LineCount(img, vertical)
    ensures r.Some? ==> i <= r.value < LineCount(img, vertical) && LineHasContent(trim, img, vertical, r.value)
    ensures forall k :: i <= k < LineCount(img, vertical) && (r.None? || k < r.value) ==>
      !LineHasContent(trim, img, vertical, k)
    decreases LineCount(img, vertical) - i
  {
    if i == LineCount(img, vertical) then None
    else if LineHasContent(trim, img, vertical, i) then Some(i)
    else FirstContent(trim, img, vertical, i + 1)
  }

  /** The last line before n with content. */
  function LastContent(trim: seq<Color>, img: Image, vertical: bool, n: nat): (r: Option<nat>)
    ensures r.Some? ==> r.value < n && LineHasContent(trim, img, vertical, r.value)
    ensures forall k :: 0 <= k < n && (r.None? || r.value < k) ==> !LineHasContent(trim, img, vertical, k)
  {
    if n == 0 then None
    else if LineHasContent(trim, img, vertical, n - 1) then Some(n - 1)
    else LastContent(trim, img, vertical, n - 1)
  }

  /**
   * The rectangle the four scans produce: Min is the first content column and row, Max the
   * index of the last content column and row; a scan that finds nothing leaves the bound.
   */
  function TrimmedRect(trim: seq<Color>, img: Image): (r: Rectangle)
    ensures 0 <= r.min.x <= r.max.x <= img.width && 0 <= r.min.y <= r.max.y <= img.height
  {
    var maxX, maxY := LastContent(trim, img, true, img.width), LastContent(trim, img, false, img.height);
    assert maxX.Some? ==> FirstContent(trim, img, true, 0).Some?;
    assert maxY.Some? ==> FirstContent(trim, img, false, 0).Some?;
    Rectangle(
      Point(FirstContent(trim, img, true, 0).GetOr(0), FirstContent(trim, img, false, 0).GetOr(0)),
      Point(LastContent(trim, img, true, img.width).GetOr(img.width),
            LastContent(trim, img, false, img.height).GetOr(img.height)))
  }

  /** The four labelled scans of `calculateTargetRect` (internal/icon/icon.go:115-161). */
  method TrimBounds(trim: seq<Color>, img: Image) returns (rect: Rectangle)
    requires img.Valid()
    ensures rect == TrimmedRect(trim, img)
  {
    var minX := ScanMinX(trim, img);
    var minY := ScanMinY(trim, img);
    var maxX := ScanMaxX(trim, img);
    var maxY := ScanMaxY(trim, img);
    rect := Rectangle(Point(minX, minY), Point(maxX, maxY));
  }

  /** The MINX scan: columns left to right, each top to bottom, stopping at the first non-trim pixel. */
  method ScanMinX(trim: seq<Color>, img: Image) returns (minX: int)
    requires img.Valid()
    ensures minX == FirstContent(trim, img, true, 0).GetOr(0)
  {
    minX := 0;
    label MinX: for x := 0 to img.width
      invariant minX == 0
      invariant forall k :: 0 <= k < x ==> !LineHasContent(trim, img, true, k)
    {
      for y := 0 to img.height
        invariant forall j :: 0 <= j < y ==> IsContainAnyColors(trim, img, x, j)
      {
        if IsContainAnyColors(trim, img, x, y) {
          continue;
        }
        minX := x;
        assert LineHasContent(trim, img, true, x);
        break MinX;
      }
    }
  }

  /** The MINY scan: rows top to bottom, each left to right. */
  method ScanMinY(trim: seq<Color>, img: Image) returns (minY: int)
    requires img.Valid()
    ensures minY == FirstContent(trim, img, false, 0).GetOr(0)
  {
    minY := 0;
    label MinY: for y := 0 to img.height
      invariant minY == 0
      invariant forall k :: 0 <= k < y ==> !LineHasContent(trim, img, false, k)
    {
      for x := 0 to img.width
        invariant forall i :: 0 <= i < x ==> IsContainAnyColors(trim, img, i, y)
      {
        if IsContainAnyColors(trim, img, x, y) {
          continue;
        }
        minY := y;
        assert LineHasContent(trim, img, false, y);
        break MinY;
      }
    }
  }

  /** The MAXX scan: columns right to left, each bottom to top; Max.X stays W when nothing is found. */
  method ScanMaxX(trim: seq<Color>, img: Image) returns (maxX: int)
    requires img.Valid()
    ensures maxX == LastContent(trim, img, true, img.width).GetOr(img.width)
  {
    maxX := img.width;
    label MaxX: for x := img.width downto 0
      invariant maxX == img.width
      invariant forall k :: x <= k < img.width ==> !LineHasContent(trim, img, true, k)
    {
      for y := img.height downto 0
        invariant forall j :: y <= j < img.height ==> IsContainAnyColors(trim, img, x, j)
      {
        if IsContainAnyColors(trim, img, x, y) {
          continue;
        }
        maxX := x;
        assert LineHasContent(trim, img, true, x);
        break MaxX;
      }
    }
  }

  /** The MAXY scan: rows bottom to top, each right to left; Max.Y stays H when nothing is found. */
  method ScanMaxY(trim: seq<Color>, img: Image) returns (maxY: int)
    requires img.Valid()
    ensures maxY == LastContent(trim, img, false, img.height).GetOr(img.height)
  {
    maxY := img.height;
    label MaxY: for y := img.height downto 0
      invariant maxY == img.height
      invariant forall k :: y <= k < img.height ==> !LineHasContent(trim, img, false, k)
    {
      for x := img.width downto 0
        invariant forall i :: x <= i < img.width ==> IsContainAnyColors(trim, img, i, y)
      {
        if IsContainAnyColors(trim, img, x, y) {
          continue;
        }
        maxY := y;
        assert LineHasContent(trim, img, false, y);
        break MaxY;
      }
    }
  }


  /** The trim list built by the append loop: each spec resolved with fallback "transparent"; the first panic wins. */
  function TrimColors(lib: Library, transparent: Color, img: Image, specs: seq<string>): Outcome<seq<Color>>
  {
    if specs == [] then Returned([])
    else
      match TrimColors(lib, transparent, img, specs[..|specs| - 1])
      case Panicked(m) => Panicked(m)
      case Returned(t) =>
        match ResolveColor(lib, transparent, img, TrimSpace(specs[|specs| - 1]), TransparentColor)
        case Panicked(m) => Panicked(m)
        case Returned(c) => Returned(t + [c])
  }

  /** Pairs a resolved background with a rectangle; a panic stays a panic. */
  function WithRect(bg: Outcome<Color>, rect: Rectangle): Outcome<(Color, Rectangle)> {
    match bg
    case Panicked(m) => Panicked(m)
    case Returned(c) => Returned((c, rect))
  }

  /** The trim list panics exactly when one of its specs does. */
  lemma {:induction false} TrimColorsPanicsIff(lib: Library, transparent: Color, img: Image, specs: seq<string>)
    ensures TrimColors(lib, transparent, img, specs).Panicked? <==>
      exists k :: 0 <= k < |specs| && ResolveColor(lib, transparent, img, TrimSpace(specs[k]), TransparentColor).Panicked?
  {
    if specs != [] {
      var n := |specs| - 1;
      var init := specs[..n];
      TrimColorsPanicsIff(lib, transparent, img, init);
      var last := ResolveColor(lib, transparent, img, TrimSpace(specs[n]), TransparentColor);
      assert TrimColors(lib, transparent, img, specs).Panicked? <==>
        TrimColors(lib, transparent, img, init).Panicked? || last.Panicked?;
      assert forall k :: 0 <= k < n ==> specs[k] == init[k];
    }
  }

  lemma {:induction false} TrimColorsPanicPersists(lib: Library, transparent: Color, img: Image, specs: seq<string>, i: nat)
    requires i <= |specs| && TrimColors(lib, transparent, img, specs[..i]).Panicked?
    ensures TrimColors(lib, transparent, img, specs) == TrimColors(lib, transparent, img, specs[..i])
    decreases |specs| - i
  {
    if i < |specs| {
      assert specs[..i + 1][..i] == specs[..i];
      TrimColorsPanicPersists(lib, transparent, img, specs, i + 1);
    } else {
      assert specs[..i] == specs;
    }
  }

  /** The loop of `calculateTargetRect` that resolves each comma-separated trim spec in turn. */
  method CollectTrimColors(lib: Library, transparent: Color, img: Image, specs: seq<string>)
    returns (res: Outcome<seq<Color>>)
    ensures res == TrimColors(lib, transparent, img, specs)
  {
    var trim: seq<Color> := [];
    for i := 0 to |specs|
      invariant TrimColors(lib, transparent, img, specs[..i]) == Returned(trim)
    {
      assert specs[..i + 1][..i] == specs[..i];
      var c := ResolveColor(lib, transparent, img, TrimSpace(specs[i]), TransparentColor);
      if c.Panicked? {
        TrimColorsPanicPersists(lib, transparent, img, specs, i + 1);
        return Panicked(c.reason);
      }
      trim := trim + [c.value];
    }
    assert specs[..|specs|] == specs;
    return Returned(trim);
  }

  /** `calculateTargetRect(f, img)` with f.Background = background and f.Trim = trimSpec. */
  method CalculateTargetRect(lib: Library, transparent: Color, background: string, trimSpec: string, img: Image)
    returns (res: Outcome<(Color, Rectangle)>)
    requires img.Valid()
    ensures trimSpec == "" ==>
      res == WithRect(ResolveColor(lib, transparent, img, background, BackgroundDefaultColor), img.Bounds())
    ensures trimSpec != "" ==>
      res == match TrimColors(lib, transparent, img, Split(trimSpec, ','))
             case Panicked(m) => Panicked(m)
             case Returned(t) =>
               WithRect(ResolveColor(lib, transparent, img, background, BackgroundDefaultColor),
                        TrimmedRect(Uniq(t), img))
  {
    var bg := ResolveColor(lib, transparent, img, background, BackgroundDefaultColor);
    if trimSpec == "" {
      return WithRect(bg, img.Bounds());
    }
    var trim := CollectTrimColors(lib, transparent, img, Split(trimSpec, ','));
    if trim.Panicked? {
      return Panicked(trim.reason);
    }
    var rect := TrimBounds(Uniq(trim.value), img);
    return WithRect(bg, rect);
  }

  // ---------------------------------------------------------------------------
  // Properties of the trim list and the trimmed rectangle

  /** A trim spec without commas or surrounding spaces gives a one-colour trim list. */
  lemma SingleTrimSpec(lib: Library, transparent: Color, img: Image, spec: string)
    requires ',' !in spec && TrimSpace(spec) == spec
    ensures TrimColors(lib, transparent, img, Split(spec, ',')) ==
      match ResolveColor(lib, transparent, img, spec, TransparentColor)
      case Panicked(m) => Panicked(m)
      case Returned(c) => Returned([c])
  {
    var specs := Split(spec, ',');
    assert specs == [spec];
    assert specs[..|specs| - 1] == [];
    assert TrimColors(lib, transparent, img, specs[..|specs| - 1]) == Returned([]);
    assert specs[|specs| - 1] == spec;
    match ResolveColor(lib, transparent, img, spec, TransparentColor)
    case Panicked(m) =>
    case Returned(c) => assert [] + [c] == [c];
  }

  /** The trim list holds one resolved colour per comma-separated spec, in order. */
  lemma {:induction false} TrimColorsPerSpec(lib: Library, transparent: Color, img: Image, specs: seq<string>)
    requires TrimColors(lib, transparent, img, specs).Returned?
    ensures |TrimColors(lib, transparent, img, specs).value| == |specs|
    ensures forall i :: 0 <= i < |specs| ==>
      ResolveColor(lib, transparent, img, TrimSpace(specs[i]), TransparentColor)
        == Returned(TrimColors(lib, transparent, img, specs).value[i])
  {
    if specs != [] {
      var init := specs[..|specs| - 1];
      var c := ResolveColor(lib, transparent, img, TrimSpace(specs[|specs| - 1]), TransparentColor);
      assert TrimColors(lib, transparent, img, init).Returned? && c.Returned?;
      TrimColorsPerSpec(lib, transparent, img, init);
      var t := TrimColors(lib, transparent, img, init).value;
      assert TrimColors(lib, transparent, img, specs).value == t + [c.value];
      forall i | 0 <= i < |specs|
        ensures ResolveColor(lib, transparent, img, TrimSpace(specs[i]), TransparentColor) == Returned((t + [c.value])[i])
      {
        if i < |specs| - 1 {
          assert specs[i] == init[i];
        }
      }
    }
  }

  /** Some pixel of the image is not a trim colour. */
  predicate HasContent(trim: seq<Color>, img: Image) {
    exists x, y :: 0 <= x < img.width && 0 <= y < img.height && !IsContainAnyColors(trim, img, x, y)
  }

  /**
   * Every non-trim pixel lies inside the trimmed rectangle, Max included: Min is at or
   * before it and Max at or after it on both axes.
   */
  lemma ContentInsideTrimmedRect(trim: seq<Color>, img: Image, x: int, y: int)
    requires 0 <= x < img.width && 0 <= y < img.height && !IsContainAnyColors(trim, img, x, y)
    ensures var r := TrimmedRect(trim, img);
      r.min.x <= x <= r.max.x && r.min.y <= y <= r.max.y
  {
    assert LineHasContent(trim, img, true, x);
    assert LineHasContent(trim, img, false, y);
  }

  /**
   * When anything is left, Min and Max are content lines: column Min.X, column Max.X, row
   * Min.Y and row Max.Y each hold a non-trim pixel, Max.X < width and Max.Y < height (Max is
   * the index of the last content line, not one past it), and Min <= Max on both axes.
   */
  lemma TrimmedEdgesHaveContent(trim: seq<Color>, img: Image)
    requires HasContent(trim, img)
    ensures var r := TrimmedRect(trim, img);
      && 0 <= r.min.x <= r.max.x < img.width && 0 <= r.min.y <= r.max.y < img.height
      && LineHasContent(trim, img, true, r.min.x) && LineHasContent(trim, img, true, r.max.x)
      && LineHasContent(trim, img, false, r.min.y) && LineHasContent(trim, img, false, r.max.y)
  {
    var x, y :| 0 <= x < img.width && 0 <= y < img.height && !IsContainAnyColors(trim, img, x, y);
    ContentInsideTrimmedRect(trim, img, x, y);
    assert LineHasContent(trim, img, true, x) && LineHasContent(trim, img, false, y);
    assert LastContent(trim, img, true, img.width).Some?;
    assert LastContent(trim, img, false, img.height).Some?;
  }

  /** Every pixel outside the trimmed rectangle is a trim colour. */
  lemma OutsideTrimmedRectIsTrim(trim: seq<Color>, img: Image, x: int, y: int)
    requires 0 <= x < img.width && 0 <= y < img.height
    requires var r := TrimmedRect(trim, img);
      x < r.min.x || x > r.max.x || y < r.min.y || y > r.max.y
    ensures IsContainAnyColors(trim, img, x, y)
  {
    if !IsContainAnyColors(trim, img, x, y) {
      ContentInsideTrimmedRect(trim, img, x, y);
    }
  }

  /** If every pixel is a trim colour no scan assigns, and the bounds come back unchanged. */
  lemma AllTrimKeepsBounds(trim: seq<Color>, img: Image)
    requires !HasContent(trim, img)
    ensures TrimmedRect(trim, img) == img.Bounds()
  {
    assert forall x :: 0 <= x < img.width ==> !LineHasContent(trim, img, true, x);
    assert forall y :: 0 <= y < img.height ==> !LineHasContent(trim, img, false, y);
  }

  /** With nothing to trim, Max lands on the last pixel, one short of the bounds on both axes. */
  lemma NoTrimColorsSpanGrid(img: Image)
    requires img.width > 0 && img.height > 0
    ensures TrimmedRect([], img) == Rectangle(Point(0, 0), Point(img.width - 1, img.height - 1))
  {
    assert !IsContainAnyColors([], img, 0, 0);
    assert LineHasContent([], img, true, 0) && LineHasContent([], img, false, 0);
    assert !IsContainAnyColors([], img, img.width - 1, img.height - 1);
    assert LineHasContent([], img, true, img.width - 1) && LineHasContent([], img, false, img.height - 1);
  }

  /** An image whose outermost `depth` rows and columns are `frame` and the rest `inner`. */
  function Framed(w: nat, h: nat, depth: nat, frame: Color, inner: Color): (img: Image)
    ensures img.Valid() && img.width == w && img.height == h
    ensures forall x, y :: 0 <= x < w && 0 <= y < h ==>
      img.At(x, y) == if x < depth || y < depth || x >= w - depth || y >= h - depth then frame else inner
  {
    Image(w, h, seq(h, y => seq(w, x => if x < depth || y < depth || x >= w - depth || y >= h - depth then frame else inner)), frame)
  }

  /**
   * Trimming a one-pixel frame off an image of any size at least 3x3 gives (1,1)-(w-2,h-2):
   * for the 5x5 case that is (1,1)-(3,3), the last content column and row, not (4,4).
   */
  lemma TrimOneFrame(w: nat, h: nat, frame: Color, inner: Color)
    requires w >= 3 && h >= 3 && Channels(frame) != Channels(inner)
    ensures TrimmedRect([frame], Framed(w, h, 1, frame, inner)) == Rectangle(Point(1, 1), Point(w - 2, h - 2))
  {
    var img := Framed(w, h, 1, frame, inner);
    var trim := [frame];
    assert !IsContainAnyColors(trim, img, 1, 1);
    assert !IsContainAnyColors(trim, img, w - 2, h - 2);
    assert LineHasContent(trim, img, true, 1) && LineHasContent(trim, img, false, 1);
    assert LineHasContent(trim, img, true, w - 2) && LineHasContent(trim, img, false, h - 2);
    forall y | 0 <= y < h
      ensures IsContainAnyColors(trim, img, 0, y) && IsContainAnyColors(trim, img, w - 1, y)
    {
      assert img.At(0, y) == frame && img.At(w - 1, y) == frame;
    }
    forall x | 0 <= x < w
      ensures IsContainAnyColors(trim, img, x, 0) && IsContainAnyColors(trim, img, x, h - 1)
    {
      assert img.At(x, 0) == frame && img.At(x, h - 1) == frame;
    }
  }

  // ---------------------------------------------------------------------------
  // Properties of auto-detection

  /** Two images of the same size that agree wherever x < 4 or y < 4 get the same detection. */
  lemma OnlyLowIndicesMatter(differs: (Color, Color) -> bool, a: Image, b: Image)
    requires a.Valid() && b.Valid() && a.width == b.width && a.height == b.height
    requires a.At(0, 0) == b.At(0, 0)
    requires forall x, y :: 0 <= x < a.width && 0 <= y < a.height && (x < 4 || y < 4) ==> a.At(x, y) == b.At(x, y)
    ensures AutoBackground(differs, a) == AutoBackground(differs, b)
  {
    if a.width > 8 && a.height > 8 {
      var c := a.At(0, 0);
      SideDiffsAgree(differs, a, b, c, a.height - 2);
      EdgeDiffsAgree(differs, a, b, c, a.width);
    }
  }

  lemma {:induction false} SideDiffsAgree(differs: (Color, Color) -> bool, a: Image, b: Image, c: Color, yEnd: int)
    requires a.Valid() && b.Valid() && a.width == b.width > 8 && a.height == b.height
    requires yEnd <= a.height
    requires forall x, y :: 0 <= x < a.width && 0 <= y < a.height && (x < 4 || y < 4) ==> a.At(x, y) == b.At(x, y)
    ensures SideDiffs(differs, a, c, yEnd) == SideDiffs(differs, b, c, yEnd)
    decreases yEnd
  {
    if yEnd > 2 {
      SideDiffsAgree(differs, a, b, c, yEnd - 1);
      var y := yEnd - 1;
      RowDiffsFour(differs, a, c, y);
      RowDiffsFour(differs, b, c, y);
      assert a.At(0, y) == b.At(0, y) && a.At(1, y) == b.At(1, y);
      assert a.At(2, y) == b.At(2, y) && a.At(3, y) == b.At(3, y);
    }
  }

  lemma {:induction false} EdgeDiffsAgree(differs: (Color, Color) -> bool, a: Image, b: Image, c: Color, xEnd: nat)
    requires a.Valid() && b.Valid() && a.width == b.width && a.height == b.height > 8
    requires xEnd <= a.width
    requires forall x, y :: 0 <= x < a.width && 0 <= y < a.height && (x < 4 || y < 4) ==> a.At(x, y) == b.At(x, y)
    ensures EdgeDiffs(differs, a, c, xEnd) == EdgeDiffs(differs, b, c, xEnd)
  {
    if xEnd > 0 {
      EdgeDiffsAgree(differs, a, b, c, xEnd - 1);
      var x := xEnd - 1;
      ColumnDiffsFour(differs, a, c, x);
      ColumnDiffsFour(differs, b, c, x);
      assert a.At(x, 0) == b.At(x, 0) && a.At(x, 1) == b.At(x, 1);
      assert a.At(x, 2) == b.At(x, 2) && a.At(x, 3) == b.At(x, 3);
    }
  }

  /** A uniform image of an opaque colour, at least 9x9, is detected with that colour. */
  lemma UniformImageDetected(differs: (Color, Color) -> bool, img: Image, c: Color)
    requires img.Valid() && img.width > 8 && img.height > 8
    requires forall x, y :: 0 <= x < img.width && 0 <= y < img.height ==> img.At(x, y) == c
    requires !differs(c, c) && Alpha(c) != 0
    ensures AutoBackground(differs, img) == Detection(c, true)
  {
    UniformSideDiffs(differs, img, c, img.height - 2);
    UniformEdgeDiffs(differs, img, c, img.width);
  }

  lemma {:induction false} UniformSideDiffs(differs: (Color, Color) -> bool, img: Image, c: Color, yEnd: int)
    requires img.Valid() && img.width > 8 && yEnd <= img.height
    requires forall x, y :: 0 <= x < img.width && 0 <= y < img.height ==> img.At(x, y) == c
    requires !differs(c, c)
    ensures SideDiffs(differs, img, c, yEnd) == 0
    decreases yEnd
  {
    if yEnd > 2 {
      UniformSideDiffs(differs, img, c, yEnd - 1);
      RowDiffsFour(differs, img, c, yEnd - 1);
      assert img.At(0, yEnd - 1) == c && img.At(1, yEnd - 1) == c;
      assert img.At(2, yEnd - 1) == c && img.At(3, yEnd - 1) == c;
    }
  }

  lemma {:induction false} UniformEdgeDiffs(differs: (Color, Color) -> bool, img: Image, c: Color, xEnd: nat)
    requires img.Valid() && img.height > 8 && xEnd <= img.width
    requires forall x, y :: 0 <= x < img.width && 0 <= y < img.height ==> img.At(x, y) == c
    requires !differs(c, c)
    ensures EdgeDiffs(differs, img, c, xEnd) == 0
  {
    if xEnd > 0 {
      UniformEdgeDiffs(differs, img, c, xEnd - 1);
      ColumnDiffsFour(differs, img, c, xEnd - 1);
      assert img.At(xEnd - 1, 0) == c && img.At(xEnd - 1, 1) == c;
      assert img.At(xEnd - 1, 2) == c && img.At(xEnd - 1, 3) == c;
    }
  }

  /**
   * An image with a uniform 2-pixel frame around a different interior is never detected:
   * the scans at indices 2 and 3 land on the interior, 2(w-4) + 2(h-4) cells in all,
   * far above the 1% tolerance.
   */
  lemma FramedImageNotDetected(differs: (Color, Color) -> bool, w: nat, h: nat, frame: Color, inner: Color)
    requires w > 8 && h > 8 && !differs(frame, frame) && differs(frame, inner)
    ensures !AutoBackground(differs, Framed(w, h, 2, frame, inner)).ok
  {
    var img := Framed(w, h, 2, frame, inner);
    FramedSideDiffs(differs, img, w, h, frame, inner, h - 2);
    FramedEdgeDiffs(differs, img, w, h, frame, inner, w);
    assert DiffCount(differs, img) == 2 * (h - 4) + 2 * (w - 4);
  }

  lemma {:induction false} FramedSideDiffs(differs: (Color, Color) -> bool, img: Image, w: nat, h: nat, frame: Color, inner: Color, yEnd: int)
    requires w > 8 && h > 8 && img == Framed(w, h, 2, frame, inner)
    requires !differs(frame, frame) && differs(frame, inner)
    requires 2 <= yEnd <= h - 2
    ensures SideDiffs(differs, img, frame, yEnd) == 2 * (yEnd - 2)
    decreases yEnd
  {
    if yEnd > 2 {
      FramedSideDiffs(differs, img, w, h, frame, inner, yEnd - 1);
      var y := yEnd - 1;
      assert img.At(0, y) == frame && img.At(1, y) == frame && img.At(2, y) == inner && img.At(3, y) == inner;
      RowDiffsFour(differs, img, frame, y);
    }
  }

  lemma {:induction false} FramedEdgeDiffs(differs: (Color, Color) -> bool, img: Image, w: nat, h: nat, frame: Color, inner: Color, xEnd: nat)
    requires w > 8 && h > 8 && img == Framed(w, h, 2, frame, inner)
    requires !differs(frame, frame) && differs(frame, inner)
    requires xEnd <= w
    ensures EdgeDiffs(differs, img, frame, xEnd) ==
      2 * (if xEnd <= 2 then 0 else if xEnd <= w - 2 then xEnd - 2 else w - 4)
  {
    if xEnd > 0 {
      FramedEdgeDiffs(differs, img, w, h, frame, inner, xEnd - 1);
      var x := xEnd - 1;
      assert img.At(x, 0) == frame && img.At(x, 1) == frame;
      if 2 <= x < w - 2 {
        assert img.At(x, 2) == inner && img.At(x, 3) == inner;
        ColumnDiffsFour(differs, img, frame, x);
      } else {
        assert img.At(x, 2) == frame && img.At(x, 3) == frame;
        ColumnDiffsFour(differs, img, frame, x);
      }
    }
  }

  // ---------------------------------------------------------------------------
  // Properties of colour resolution

  /** The spec "transparent" resolves to the transparent value whatever the fallback and image. */
  lemma TransparentSpecResolves(lib: Library, transparent: Color, img: Image, fallback: string)
    requires fallback != ""
    ensures ResolveColor(lib, transparent, img, TransparentColor, fallback) == Returned(transparent)
  {
    assert TransparentColor[0] != AutoColor[0];
  }

  /**
   * A plain colour name is looked up in the SVG table first, and in the material table only
   * when the SVG table lacks it; neither the image nor the fallback plays a part.
   */
  lemma NameLookupOrder(lib: Library, transparent: Color, img: Image, bg: string, fallback: string)
    requires fallback != "" && !HasPrefix(bg, AutoColor) && !HasPrefix(bg, "#") && bg != TransparentColor
    requires bg in lib.svg || bg in lib.material
    ensures ResolveColor(lib, transparent, img, bg, fallback) ==
      Returned(if bg in lib.svg then lib.svg[bg] else lib.material[bg])
  {
  }

  /** With a well-formed hex fallback, resolution never panics. */
  lemma HexFallbackNeverPanics(lib: Library, transparent: Color, img: Image, bg: string, fallback: string)
    requires Img.WellFormedHex(fallback)
    ensures ResolveColor(lib, transparent, img, bg, fallback).Returned?
  {
    var d := AutoBackground(lib.differs, img);
    if HasPrefix(bg, AutoColor) && !d.ok && ',' in bg {
      NameWithHexFallbackNeverPanics(lib, transparent, AutoFallbackSegment(bg), fallback);
    } else if !HasPrefix(bg, AutoColor) {
      NameWithHexFallbackNeverPanics(lib, transparent, bg, fallback);
    }
  }

  lemma NameWithHexFallbackNeverPanics(lib: Library, transparent: Color, bg: string, fallback: string)
    requires Img.WellFormedHex(fallback)
    ensures ResolveName(lib, transparent, bg, fallback).Returned?
  {
  }

  /**
   * With fallback "transparent" (every trim spec), resolution panics exactly for an `auto`
   * spec with no comma whose detection fails: "transparent" is not a hex colour.
   */
  lemma TransparentFallbackPanicsIff(lib: Library, transparent: Color, img: Image, bg: string)
    ensures ResolveColor(lib, transparent, img, bg, TransparentColor).Panicked? <==>
      HasPrefix(bg, AutoColor) && !AutoBackground(lib.differs, img).ok && ',' !in bg
  {
    assert !Img.WellFormedHex(TransparentColor);
    var d := AutoBackground(lib.differs, img);
    if HasPrefix(bg, AutoColor) && !d.ok && ',' in bg {
      NameWithTransparentFallbackNeverPanics(lib, transparent, AutoFallbackSegment(bg));
    } else if !HasPrefix(bg, AutoColor) {
      NameWithTransparentFallbackNeverPanics(lib, transparent, bg);
    }
  }

  lemma NameWithTransparentFallbackNeverPanics(lib: Library, transparent: Color, bg: string)
    ensures ResolveName(lib, transparent, bg, TransparentColor).Returned?
  {
  }

  /**
   * The image matters only through one detection: the segment after `auto,` is resolved
   * as a plain spec (an `auto` there is looked up as a name), and a spec without the
   * `auto` prefix never looks at the image.
   */
  lemma ImageOnlyThroughDetection(lib: Library, transparent: Color, a: Image, b: Image, bg: string, fallback: string)
    requires fallback != ""
    requires !HasPrefix(bg, AutoColor) || AutoBackground(lib.differs, a) == AutoBackground(lib.differs, b)
      || (!AutoBackground(lib.differs, a).ok && !AutoBackground(lib.differs, b).ok && ',' in bg)
    ensures ResolveColor(lib, transparent, a, bg, fallback) == ResolveColor(lib, transparent, b, bg, fallback)
  {
  }

  /**
   * Where a resolved colour comes from: the detected top-left pixel, the value of
   * "transparent", an SVG or material table entry, or an opaque colour parsed from hex.
   */
  lemma ResolvedColorOrigin(lib: Library, transparent: Color, img: Image, bg: string, fallback: string)
    requires fallback != "" && ResolveColor(lib, transparent, img, bg, fallback).Returned?
    ensures var c := ResolveColor(lib, transparent, img, bg, fallback).value;
      || (HasPrefix(bg, AutoColor) && AutoBackground(lib.differs, img) == Detection(c, true))
      || c == transparent
      || c in lib.svg.Values || c in lib.material.Values
      || (c.RGBA? && c.a == 0xff)
  {
    var d := AutoBackground(lib.differs, img);
    if HasPrefix(bg, AutoColor) && !d.ok && ',' in bg {
      ResolvedNameOrigin(lib, transparent, AutoFallbackSegment(bg), fallback);
    } else if !HasPrefix(bg, AutoColor) {
      ResolvedNameOrigin(lib, transparent, bg, fallback);
    }
  }

  lemma ResolvedNameOrigin(lib: Library, transparent: Color, bg: string, fallback: string)
    requires fallback != "" && ResolveName(lib, transparent, bg, fallback).Returned?
    ensures var c := ResolveName(lib, transparent, bg, fallback).value;
      c == transparent || c in lib.svg.Values || c in lib.material.Values || (c.RGBA? && c.a == 0xff)
  {
  }


  /** A well-formed hex spec resolves to its parse; names and the fallback are not consulted. */
  lemma HexSpecResolves(lib: Library, transparent: Color, img: Image, bg: string, fallback: string)
    requires fallback != "" && Img.WellFormedHex(bg)
    ensures ResolveColor(lib, transparent, img, bg, fallback) == Returned(Img.ParseHexColor(bg).c)
  {
    assert !HasPrefix(bg, AutoColor);
  }

  /**
   * A spec that is neither a table name nor valid hex resolves as the fallback would:
   * to the transparent value for fallback "transparent", else to the parsed fallback.
   */
  lemma UnknownSpecFallsBack(lib: Library, transparent: Color, img: Image, bg: string, fallback: string)
    requires fallback != "" && !HasPrefix(bg, AutoColor) && bg != TransparentColor
    requires bg !in lib.svg && bg !in lib.material
    requires bg == [] || !Img.WellFormedHex(bg)
    ensures ResolveColor(lib, transparent, img, bg, fallback) ==
      if fallback == TransparentColor then Returned(transparent)
      else if Img.WellFormedHex(fallback) then Returned(Img.ParseHexColor(fallback).c)
      else Panicked("invalid hex color format")
  {
  }
}
