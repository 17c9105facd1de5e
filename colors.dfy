/**
 * Go's `image/color` values as the core sees them. A `color.Color` is an
 * interface value: its dynamic type matters for `==`, and its `RGBA()` method
 * gives the 16-bit, alpha-premultiplied channels that trim matching compares.
 */
module Colors {

  type Byte = x: int | 0 <= x < 0x100
  type Word = x: int | 0 <= x < 0x1_0000

  /** The four values returned by `Color.RGBA()`. */
  datatype Quad = Quad(r: Word, g: Word, b: Word, a: Word)

  datatype Color =
    | RGBA(r: Byte, g: Byte, b: Byte, a: Byte)  // color.RGBA
    | Alpha16(alpha: Word)                      // color.Alpha16; color.Transparent is Alpha16{0}
    | Gray16(y: Word)                           // color.Gray16; color.Black is Gray16{0}
    | Other(q: Quad)                            // any other colour model, known only through RGBA()

  const Transparent: Color := Alpha16(0)
  const Black: Color := Gray16(0)

  /** `Color.RGBA()`: each 8-bit channel c becomes c | c << 8. */
  function Channels(c: Color): Quad {
    match c
    case RGBA(r, g, b, a) => Quad(r * 0x101, g * 0x101, b * 0x101, a * 0x101)
    case Alpha16(a) => Quad(a, a, a, a)
    case Gray16(y) => Quad(y, y, y, 0xffff)
    case Other(q) => q
  }

  /** The alpha channel of `RGBA()`. */
  function Alpha(c: Color): Word {
    Channels(c).a
  }

  /** `color.RGBAModel.Convert`: an RGBA is kept, any other colour keeps the top byte of each channel. */
  function ToRGBA(c: Color): (r: Color)
    ensures r.RGBA?
    ensures c.RGBA? ==> r == c
    ensures var q, p := Channels(c), Channels(r);
      && p.r / 0x100 == q.r / 0x100 && p.g / 0x100 == q.g / 0x100
      && p.b / 0x100 == q.b / 0x100 && p.a / 0x100 == q.a / 0x100
  {
    if c.RGBA? then c
    else
      var q := Channels(c);
      RGBA(q.r / 0x100, q.g / 0x100, q.b / 0x100, q.a / 0x100)
  }
}
