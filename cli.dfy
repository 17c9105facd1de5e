/**
 * cmd/cli.go: the copy of the core the program runs. Here the spec "transparent" resolves to
 * utils.EmptyColor, white with alpha 0, whose RGBA() channels are (0xffff, 0xffff, 0xffff, 0).
 */
module Cli {
  import opened Wrappers
  import opened Colors
  import opened Strings
  import Img
  import Core

  /** The command-line flags; unsigned Go fields are `nat`. */
  datatype Flags = Flags(
    size: nat, output: string, padding: nat, round: nat, srcRound: nat, overwrite: bool,
    background: string, trim: string, padX: int, padY: int)

  /** The flag values before cobra parses the command line. */
  const DefaultFlags: Flags := Flags(200, ".", 10, 0, 0, false,
    Core.AutoColor + "," + Core.BackgroundDefaultColor, Core.TransparentColor, 0, 0)

  /** `calculateColor(img, bg, fallback)` of cli.go. */
  function CalculateColor(lib: Core.Library, img: Core.Image, bg: string, fallback: string): (r: Outcome<Color>)
    requires fallback != ""
    ensures bg == Core.TransparentColor ==> r == Returned(Img.EmptyColor)
    ensures HasPrefix(bg, Core.AutoColor) && Core.AutoBackground(lib.differs, img).ok ==> r == Returned(img.At(0, 0))
    ensures HasPrefix(bg, Core.AutoColor) && !Core.AutoBackground(lib.differs, img).ok && ',' !in bg ==>
      r == if Img.WellFormedHex(fallback) then Returned(Img.ParseHexColor(fallback).c)
           else Panicked("invalid hex color format")
    ensures !HasPrefix(bg, Core.AutoColor) && !HasPrefix(bg, "#") && bg != Core.TransparentColor && bg in lib.svg ==>
      r == Returned(lib.svg[bg])
    ensures !HasPrefix(bg, Core.AutoColor) && !HasPrefix(bg, "#") && bg != Core.TransparentColor
            && bg !in lib.svg && bg in lib.material ==>
      r == Returned(lib.material[bg])
    ensures r.Returned? && !HasPrefix(bg, Core.AutoColor) ==>
      r.value == Img.EmptyColor || (r.value.RGBA? && r.value.a == 0xff)
      || r.value in lib.svg.Values || r.value in lib.material.Values
  {
    Core.TransparentSpecResolves(lib, Img.EmptyColor, img, fallback);
    Core.ResolveColor(lib, Img.EmptyColor, img, bg, fallback)
  }

  /** `calculateTargetRect(f, img)` of cli.go. */
  method CalculateTargetRect(lib: Core.Library, f: Flags, img: Core.Image) returns (res: Outcome<(Color, Core.Rectangle)>)
    requires img.Valid()
    ensures f.trim == "" ==>
      res == Core.WithRect(CalculateColor(lib, img, f.background, Core.BackgroundDefaultColor), img.Bounds())
    ensures f.trim != "" ==>
      res == match Core.TrimColors(lib, Img.EmptyColor, img, Split(f.trim, ','))
             case Panicked(m) => Panicked(m)
             case Returned(t) =>
               Core.WithRect(CalculateColor(lib, img, f.background, Core.BackgroundDefaultColor),
                             Core.TrimmedRect(Core.Uniq(t), img))
  {
    res := Core.CalculateTargetRect(lib, Img.EmptyColor, f.background, f.trim, img);
  }

  /** The default background and trim specs. */
  lemma DefaultSpecs()
    ensures DefaultFlags.background == "auto,#f1f5f9" && DefaultFlags.trim == "transparent"
  {
  }

  /** The segment after the comma of the default background is "#f1f5f9". */
  lemma DefaultBackgroundSegment()
    ensures ',' in DefaultFlags.background
    ensures Core.AutoFallbackSegment(DefaultFlags.background) == Core.BackgroundDefaultColor
  {
    var bg := DefaultFlags.background;
    assert bg[4] == ',';
    assert IndexOf(bg, ',') == 4;
    assert bg[5..] == Core.BackgroundDefaultColor;
    assert ',' !in Core.BackgroundDefaultColor;
    assert Split(bg, ',')[1] == Core.BackgroundDefaultColor;
    TrimSpaceKeepsTrimmed(Core.BackgroundDefaultColor);
  }

  /** "#f1f5f9" parses without error to opaque RGBA(0xf1, 0xf5, 0xf9, 0xff). */
  lemma DefaultHexParses()
    ensures Img.ParseHexColor(Core.BackgroundDefaultColor) == Img.HexResult(RGBA(0xf1, 0xf5, 0xf9, 0xff), None)
  {
    Img.FormatThenParse(RGBA(0xf1, 0xf5, 0xf9, 0xff));
    assert Img.FormatHex(RGBA(0xf1, 0xf5, 0xf9, 0xff)) == Core.BackgroundDefaultColor;
  }

  /**
   * With the default background, detection decides: its colour when it succeeds, else the
   * segment after the comma, which is opaque #f1f5f9. It never panics.
   */
  lemma DefaultBackgroundResolves(lib: Core.Library, img: Core.Image)
    ensures CalculateColor(lib, img, DefaultFlags.background, Core.BackgroundDefaultColor) ==
      if Core.AutoBackground(lib.differs, img).ok then Returned(img.At(0, 0))
      else Returned(RGBA(0xf1, 0xf5, 0xf9, 0xff))
  {
    var bg := DefaultFlags.background;
    assert bg[..4] == Core.AutoColor;
    if !Core.AutoBackground(lib.differs, img).ok {
      DefaultBackgroundSegment();
      DefaultHexParses();
    }
  }

  /** The default trim spec builds the trim list [EmptyColor]. */
  lemma DefaultTrimList(lib: Core.Library, img: Core.Image)
    ensures Core.TrimColors(lib, Img.EmptyColor, img, Split(DefaultFlags.trim, ',')) == Returned([Img.EmptyColor])
  {
    assert ',' !in Core.TransparentColor;
    TrimSpaceKeepsTrimmed(Core.TransparentColor);
    Core.TransparentSpecResolves(lib, Img.EmptyColor, img, Core.TransparentColor);
    Core.SingleTrimSpec(lib, Img.EmptyColor, img, Core.TransparentColor);
  }

  /**
   * With trim list [EmptyColor], a pixel is trimmed iff its RGBA() channels are exactly
   * (0xffff, 0xffff, 0xffff, 0); a fully transparent pixel with channels (0, 0, 0, 0) is kept.
   */
  lemma EmptyColorTrimMatchesOnlyClearWhite(img: Core.Image, x: int, y: int)
    ensures Core.IsContainAnyColors([Img.EmptyColor], img, x, y) <==>
      Channels(img.At(x, y)) == Quad(0xffff, 0xffff, 0xffff, 0)
    ensures Channels(img.At(x, y)) == Quad(0, 0, 0, 0) ==> !Core.IsContainAnyColors([Img.EmptyColor], img, x, y)
  {
  }

  /** A malformed hex spec with fallback "transparent" resolves to EmptyColor. */
  lemma BadHexFallsBackToEmptyColor(lib: Core.Library, img: Core.Image, bg: string)
    requires HasPrefix(bg, "#") && !Img.WellFormedHex(bg)
    ensures CalculateColor(lib, img, bg, Core.TransparentColor) == Returned(Img.EmptyColor)
  {
    assert !HasPrefix(bg, Core.AutoColor) by { assert bg[0] == '#'; }
  }
}
