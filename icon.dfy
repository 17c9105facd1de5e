/**
 * internal/icon/icon.go: the copy of the core in which the spec "transparent" resolves to
 * color.Transparent (alpha 0 with all RGBA() channels 0).
 */
module Icon {
  import opened Wrappers
  import opened Colors
  import opened Strings
  import Img
  import Core

  /** `calculateColor(img, bg, fallback)` of icon.go. */
  function CalculateColor(lib: Core.Library, img: Core.Image, bg: string, fallback: string): (r: Outcome<Color>)
    requires fallback != ""
    ensures bg == Core.TransparentColor ==> r == Returned(Transparent)
    ensures HasPrefix(bg, Core.AutoColor) && Core.AutoBackground(lib.differs, img).ok ==> r == Returned(img.At(0, 0))
    ensures HasPrefix(bg, Core.AutoColor) && !Core.AutoBackground(lib.differs, img).ok && ',' !in bg ==>
      r == if Img.WellFormedHex(fallback) then Returned(Img.ParseHexColor(fallback).c)
           else Panicked("invalid hex color format")
    ensures !HasPrefix(bg, Core.AutoColor) && !HasPrefix(bg, "#") && bg != Core.TransparentColor && bg in lib.svg ==>
      r == Returned(lib.svg[bg])
    ensures !HasPrefix(bg, Core.AutoColor) && !HasPrefix(bg, "#") && bg != Core.TransparentColor
            && bg !in lib.svg && bg in lib.material ==>
      r == Returned(lib.material[bg])
    ensures r.Returned? && r.value != Transparent && !HasPrefix(bg, Core.AutoColor) ==>
      (r.value.RGBA? && r.value.a == 0xff) || r.value in lib.svg.Values || r.value in lib.material.Values
  {
    Core.TransparentSpecResolves(lib, Transparent, img, fallback);
    Core.ResolveColor(lib, Transparent, img, bg, fallback)
  }

  /** The trim spec "transparent" builds the trim list [color.Transparent]. */
  lemma TransparentTrimList(lib: Core.Library, img: Core.Image)
    ensures Core.TrimColors(lib, Transparent, img, Split(Core.TransparentColor, ',')) == Returned([Transparent])
  {
    assert ',' !in Core.TransparentColor;
    TrimSpaceKeepsTrimmed(Core.TransparentColor);
    Core.TransparentSpecResolves(lib, Transparent, img, Core.TransparentColor);
    Core.SingleTrimSpec(lib, Transparent, img, Core.TransparentColor);
  }

  /** With trim list [color.Transparent], a pixel is trimmed iff all four of its RGBA() channels are 0. */
  lemma TransparentTrimMatchesClearPixels(img: Core.Image, x: int, y: int)
    ensures Core.IsContainAnyColors([Transparent], img, x, y) <==> Channels(img.At(x, y)) == Quad(0, 0, 0, 0)
  {
  }
}
