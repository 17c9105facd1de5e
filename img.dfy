/**
 * internal/utils/img.go: hex colour parsing and corner rounding.
 */
module Img {
  import opened Wrappers
  import opened Colors

  datatype Error = ErrInvalidHexColor | ErrFormatNotSupported

  /** `utils.EmptyColor`: white with alpha 0 (not alpha-premultiplied). */
  const EmptyColor: Color := RGBA(255, 255, 255, 0)

  // ---------------------------------------------------------------------------
  // ParseHexColor

  /** What ParseHexColor returns: the colour is always set, even beside an error. */
  datatype HexResult = HexResult(c: Color, err: Option<Error>)

  predicate IsHexDigit(b: char) {
    ('0' <= b <= '9') || ('a' <= b <= 'f') || ('A' <= b <= 'F')
  }

  /** `hexToByte`: the value of a hex digit of either case; 0 for any other byte. */
  function HexValue(b: char): (v: nat)
    ensures v < 16
    ensures !IsHexDigit(b) ==> v == 0
  {
    if '0' <= b <= '9' then b as int - '0' as int
    else if 'a' <= b <= 'f' then b as int - 'a' as int + 10
    else if 'A' <= b <= 'F' then b as int - 'A' as int + 10
    else 0
  }

  /** The strings ParseHexColor accepts: `#RGB` or `#RRGGBB`, hex digits of either case. */
  predicate WellFormedHex(s: string) {
    && |s| > 0
    && s[0] == '#'
    && (|s| == 4 || |s| == 7)
    && forall k :: 1 <= k < |s| ==> IsHexDigit(s[k])
  }

  /** The byte written by two hex digits. */
  function HexPair(hi: char, lo: char): Byte {
    16 * HexValue(hi) + HexValue(lo)
  }

  function ParseHexColor(s: string): (r: HexResult)
    requires |s| > 0
    ensures r.c.RGBA? && r.c.a == 0xff
    ensures r.err == None <==> WellFormedHex(s)
    ensures r.err != None ==> r.err == Some(ErrInvalidHexColor)
    ensures s[0] == '#' && |s| == 7 ==>
      r.c.r == HexPair(s[1], s[2]) && r.c.g == HexPair(s[3], s[4]) && r.c.b == HexPair(s[5], s[6])
    ensures s[0] == '#' && |s| == 4 ==>
      r.c.r == HexPair(s[1], s[1]) && r.c.g == HexPair(s[2], s[2]) && r.c.b == HexPair(s[3], s[3])
  {
    if s[0] != '#' then
      HexResult(RGBA(0, 0, 0, 0xff), Some(ErrInvalidHexColor))
    else if |s| == 7 then
      var valid := forall k | 1 <= k < 7 :: IsHexDigit(s[k]);
      HexResult(
        RGBA(HexValue(s[1]) * 16 + HexValue(s[2]),
             HexValue(s[3]) * 16 + HexValue(s[4]),
             HexValue(s[5]) * 16 + HexValue(s[6]), 0xff),
        if valid then None else Some(ErrInvalidHexColor))
    else if |s| == 4 then
      var valid := forall k | 1 <= k < 4 :: IsHexDigit(s[k]);
      HexResult(
        RGBA(HexValue(s[1]) * 17, HexValue(s[2]) * 17, HexValue(s[3]) * 17, 0xff),
        if valid then None else Some(ErrInvalidHexColor))
    else
      HexResult(RGBA(0, 0, 0, 0xff), Some(ErrInvalidHexColor))
  }

  /** `#abc` parses to the same colour, with the same error, as `#aabbcc`, for any three bytes. */
  lemma ShortFormDoublesDigits(a: char, b: char, c: char)
    ensures ParseHexColor(['#', a, b, c]) == ParseHexColor(['#', a, a, b, b, c, c])
  {
    var short, long := ['#', a, b, c], ['#', a, a, b, b, c, c];
    if WellFormedHex(long) {
      forall k | 1 <= k < 4 ensures IsHexDigit(short[k]) {
        assert short[k] == long[2 * k - 1];
      }
      assert WellFormedHex(short);
    }
    if WellFormedHex(short) {
      forall k | 1 <= k < 7 ensures IsHexDigit(long[k]) {
        assert long[k] == short[(k + 1) / 2];
      }
      assert WellFormedHex(long);
    }
  }

  function LowerByte(b: char): char {
    if 'A' <= b <= 'Z' then (b as int - 'A' as int + 'a' as int) as char else b
  }

  function Lower(s: string): (t: string)
    ensures |t| == |s| && forall k :: 0 <= k < |s| ==> t[k] == LowerByte(s[k])
  {
    seq(|s|, k requires 0 <= k < |s| => LowerByte(s[k]))
  }

  /** Upper- and lower-case hex digits give the same result, errors included. */
  lemma CaseInsensitive(s: string)
    requires |s| > 0
    ensures ParseHexColor(Lower(s)) == ParseHexColor(s)
  {
    var t := Lower(s);
    forall k | 0 <= k < |s| ensures HexValue(t[k]) == HexValue(s[k]) && (IsHexDigit(t[k]) <==> IsHexDigit(s[k])) {
    }
    assert t[0] == '#' <==> s[0] == '#';
    assert WellFormedHex(t) <==> WellFormedHex(s);
  }

  function HexDigitChar(d: nat): (b: char)
    requires d < 16
    ensures IsHexDigit(b) && HexValue(b) == d
  {
    if d < 10 then (('0' as int) + d) as char else (('a' as int) + d - 10) as char
  }

  /** The `#rrggbb` spelling of an opaque RGBA colour: the partner of ParseHexColor. */
  function FormatHex(c: Color): (s: string)
    requires c.RGBA?
    ensures |s| == 7 && s[0] == '#'
  {
    ['#', HexDigitChar(c.r / 16), HexDigitChar(c.r % 16),
          HexDigitChar(c.g / 16), HexDigitChar(c.g % 16),
          HexDigitChar(c.b / 16), HexDigitChar(c.b % 16)]
  }

  /** Formatting an opaque colour and parsing it back gives the colour and no error. */
  lemma FormatThenParse(c: Color)
    requires c.RGBA? && c.a == 0xff
    ensures ParseHexColor(FormatHex(c)) == HexResult(c, None)
  {
    var s := FormatHex(c);
    assert WellFormedHex(s);
  }

  // ---------------------------------------------------------------------------
  // RoundImage

  /** The dynamic type behind the `image.Image` handed to RoundImage. */
  datatype Kind =
    | Settable   // has a Set method (the program only passes *image.RGBA)
    | YCbCr      // *image.YCbCr, which has none
    | ReadOnly   // any other image type without Set

  /** A pixel buffer with bounds (0,0)-(Width, Height); `pix[x, y]` is the pixel at (x, y). */
  class Picture {
    const kind: Kind
    const pix: array2<Color>

    /** `image.NewRGBA`: a settable buffer of zero pixels. */
    constructor NewRGBA(w: nat, h: nat)
      ensures kind == Settable && fresh(pix)
      ensures pix.Length0 == w && pix.Length1 == h
      ensures forall x, y :: 0 <= x < w && 0 <= y < h ==> pix[x, y] == RGBA(0, 0, 0, 0)
    {
      kind := Settable;
      pix := new Color[w, h]((x, y) => RGBA(0, 0, 0, 0));
    }

    /** `Set`: a point outside the bounds is ignored; the colour is converted to the RGBA model. */
    method Set(x: int, y: int, c: Color)
      requires kind == Settable
      modifies pix
      ensures forall i, j :: 0 <= i < pix.Length0 && 0 <= j < pix.Length1 ==>
        pix[i, j] == if i == x && j == y then ToRGBA(c) else old(pix[i, j])
    {
      if 0 <= x < pix.Length0 && 0 <= y < pix.Length1 {
        pix[x, y] := ToRGBA(c);
      }
    }
  }

  /** `math.Round` on a non-negative real. */
  function Round(x: real): int
    requires x >= 0.0
  {
    (x + 0.5).Floor
  }

  /**
   * k <= math.Round(r - sqrt(v)) holds exactly when k <= r - sqrt(v) + 1/2, that is when
   * d = r + 1/2 - k is non-negative and d * d >= v; this states it without the square root.
   */
  predicate WithinChord(r: real, v: real, k: int) {
    var d := r + 0.5 - k as real;
    d >= 0.0 && d * d >= v
  }

  /** The largest l <= k that is WithinChord. */
  function ChordSearch(r: real, v: real, k: int): (l: int)
    requires 0 <= k && WithinChord(r, v, 0)
    ensures 0 <= l <= k && WithinChord(r, v, l)
    ensures forall j :: l < j <= k ==> !WithinChord(r, v, j)
    decreases k
  {
    if WithinChord(r, v, k) then k else ChordSearch(r, v, k - 1)
  }

  /** The value under the square root at scanline y: 2yr - y*y. */
  function ChordSquare(r: real, y: nat): real {
    2.0 * (y as real) * r - (y as real) * (y as real)
  }

  lemma ZeroWithinChord(r: real, y: nat)
    requires y as real <= r
    ensures WithinChord(r, ChordSquare(r, y), 0)
  {
    var yr := y as real;
    assert (r - yr) * (r - yr) >= 0.0;
    assert (r + 0.5) * (r + 0.5) == r * r + r + 0.25;
    assert r * r - ChordSquare(r, y) == (r - yr) * (r - yr);
  }

  /**
   * `l := math.Round(r - math.Sqrt(2*y*r - y*y))` in exact arithmetic: the largest integer
   * within the chord, between 0 and math.Round(r).
   */
  function Chord(r: real, y: nat): (l: nat)
    requires y as real <= r
    ensures l <= Round(r)
    ensures WithinChord(r, ChordSquare(r, y), l)
    ensures forall j :: j > l ==> !WithinChord(r, ChordSquare(r, y), j)
  {
    ZeroWithinChord(r, y);
    ChordSearch(r, ChordSquare(r, y), Round(r))
  }

  /**
   * The pixels the rounding loop clears: at scanline k <= r, rows k-1 and h-k, columns
   * x-1 and w-x for x in 0..Chord(r, k). Only in-bounds pixels are asked about.
   */
  ghost predicate InCorner(w: int, h: int, r: real, x: int, y: int) {
    exists k: nat :: CornerAt(w, h, r, k, x, y)
  }

  ghost predicate CornerAt(w: int, h: int, r: real, k: nat, x: int, y: int) {
    && k as real <= r
    && (y == k - 1 || y == h - k)
    && (x < Chord(r, k) || w - x <= Chord(r, k))
  }

  ghost predicate InCornerBelow(w: int, h: int, r: real, n: nat, x: int, y: int) {
    exists k: nat :: k < n && CornerAt(w, h, r, k, x, y)
  }

  /** One inner loop: Set(x-1, row) (from the left) or Set(w-x, row) (from the right) for x in 0..l. */
  method ClearRun(sm: Picture, row: int, l: nat, fromRight: bool)
    requires sm.kind == Settable
    modifies sm.pix
    ensures forall i, j :: 0 <= i < sm.pix.Length0 && 0 <= j < sm.pix.Length1 ==>
      sm.pix[i, j] == if j == row && (if fromRight then sm.pix.Length0 - i <= l else i < l)
                      then EmptyColor else old(sm.pix[i, j])
  {
    var w := sm.pix.Length0;
    for x := 0 to l + 1
      invariant forall i, j :: 0 <= i < w && 0 <= j < sm.pix.Length1 ==>
        sm.pix[i, j] == if j == row && (if fromRight then w - i < x else i + 1 < x)
                        then EmptyColor else old(sm.pix[i, j])
    {
      if fromRight {
        sm.Set(w - x, row, EmptyColor);
      } else {
        sm.Set(x - 1, row, EmptyColor);
      }
    }
  }

  /** The scanline loop of RoundImage on a settable buffer (internal/utils/img.go:69-83). */
  method RoundCorners(sm: Picture, r: real)
    requires sm.kind == Settable
    modifies sm.pix
    ensures forall x, y :: 0 <= x < sm.pix.Length0 && 0 <= y < sm.pix.Length1 ==>
      sm.pix[x, y] == if InCorner(sm.pix.Length0, sm.pix.Length1, r, x, y) then EmptyColor else old(sm.pix[x, y])
  {
    var w, h := sm.pix.Length0, sm.pix.Length1;
    var y: nat := 0;
    while y as real <= r
      invariant forall i, j :: 0 <= i < w && 0 <= j < h ==>
        sm.pix[i, j] == if InCornerBelow(w, h, r, y, i, j) then EmptyColor else old(sm.pix[i, j])
      decreases r.Floor + 1 - y
    {
      var l := Chord(r, y);
      ghost var before := sm.pix;
      ClearRun(sm, y - 1, l, false);
      ClearRun(sm, y - 1, l, true);
      ClearRun(sm, h - y, l, false);
      ClearRun(sm, h - y, l, true);
      forall i, j | 0 <= i < w && 0 <= j < h
        ensures InCornerBelow(w, h, r, y + 1, i, j) <==>
          InCornerBelow(w, h, r, y, i, j) || ((j == y - 1 || j == h - y) && (i < l || w - i <= l))
      {
        if (j == y - 1 || j == h - y) && (i < l || w - i <= l) {
          assert CornerAt(w, h, r, y, i, j);
        }
      }
      y := y + 1;
    }
    forall i, j | 0 <= i < w && 0 <= j < h
      ensures InCorner(w, h, r, i, j) <==> InCornerBelow(w, h, r, y, i, j)
    {
      if InCorner(w, h, r, i, j) {
        var k: nat :| CornerAt(w, h, r, k, i, j);
        assert k < y;
      }
    }
  }

  /** `r := (min(w, h) / 2) * rate`. */
  function Radius(w: nat, h: nat, rate: real): (r: real)
    ensures rate >= 0.0 ==> r >= 0.0
    ensures rate == 1.0 ==> r == (if w < h then w else h) as real / 2.0
  {
    (if w < h then w else h) as real / 2.0 * rate
  }

  /** A larger rate never gives a smaller radius. */
  lemma RadiusGrows(w: nat, h: nat, rate: real, rate2: real)
    requires rate <= rate2
    ensures Radius(w, h, rate) <= Radius(w, h, rate2)
  {
    var half := (if w < h then w else h) as real / 2.0;
    MulMonotone(half, rate2 - rate);
  }

  lemma MulMonotone(a: real, b: real)
    requires a >= 0.0 && b >= 0.0
    ensures a * b >= 0.0
  {
  }

  lemma MulPositive(a: real, b: real)
    requires a > 0.0 && b > 0.0
    ensures a * b > 0.0
  {
  }

  /** A non-negative d whose square is at least y * y is at least y. */
  lemma SquareDominates(d: real, y: real)
    requires d >= 0.0 && y >= 0.0 && d * d >= y * y
    ensures d >= y
  {
    assert d * y - d * d == d * (y - d);
    assert y * y - d * y == y * (y - d);
    if d < y {
      MulMonotone(d, y - d);
      MulPositive(y, y - d);
    }
  }

  /** An integer within the chord of radius r at scanline y stays within it for any larger radius. */
  lemma WithinChordGrows(r: real, r2: real, y: nat, l: int)
    requires y as real <= r <= r2 && WithinChord(r, ChordSquare(r, y), l)
    ensures WithinChord(r2, ChordSquare(r2, y), l)
  {
    var yr := y as real;
    var d := r + 0.5 - l as real;
    var e := r2 - r;
    assert ChordSquare(r, y) - yr * yr == 2.0 * yr * (r - yr);
    MulMonotone(2.0 * yr, r - yr);
    SquareDominates(d, yr);
    assert (d + e) * (d + e) == d * d + 2.0 * d * e + e * e;
    assert ChordSquare(r2, y) == ChordSquare(r, y) + 2.0 * yr * e;
    MulMonotone(2.0 * (d - yr), e);
    MulMonotone(e, e);
  }

  /** The chord at a scanline grows with the radius. */
  lemma ChordGrows(r: real, r2: real, y: nat)
    requires y as real <= r <= r2
    ensures Chord(r, y) <= Chord(r2, y)
  {
    WithinChordGrows(r, r2, y, Chord(r, y));
  }

  /** Every pixel a radius clears is also cleared by any larger radius. */
  lemma InCornerGrows(w: int, h: int, r: real, r2: real, x: int, y: int)
    requires r <= r2 && InCorner(w, h, r, x, y)
    ensures InCorner(w, h, r2, x, y)
  {
    var k: nat :| CornerAt(w, h, r, k, x, y);
    ChordGrows(r, r2, k);
    assert CornerAt(w, h, r2, k, x, y);
  }

  /** A larger rounding rate clears a superset of the pixels a smaller one clears. */
  lemma RoundingGrowsWithRate(w: nat, h: nat, rate: real, rate2: real, x: int, y: int)
    requires rate <= rate2 && InCorner(w, h, Radius(w, h, rate), x, y)
    ensures InCorner(w, h, Radius(w, h, rate2), x, y)
  {
    RadiusGrows(w, h, rate, rate2);
    InCornerGrows(w, h, Radius(w, h, rate), Radius(w, h, rate2), x, y);
  }

  /** `yCbCrToRGBA`: a fresh RGBA buffer holding every pixel converted to the RGBA model. */
  method YCbCrToRGBA(m: Picture) returns (nm: Picture)
    ensures fresh(nm) && fresh(nm.pix) && nm.kind == Settable
    ensures nm.pix.Length0 == m.pix.Length0 && nm.pix.Length1 == m.pix.Length1
    ensures forall x, y :: 0 <= x < m.pix.Length0 && 0 <= y < m.pix.Length1 ==>
      nm.pix[x, y] == ToRGBA(m.pix[x, y])
  {
    var w, h := m.pix.Length0, m.pix.Length1;
    nm := new Picture.NewRGBA(w, h);
    for y := 0 to h
      invariant fresh(nm.pix)
      invariant forall i, j :: 0 <= i < w && 0 <= j < y ==> nm.pix[i, j] == ToRGBA(m.pix[i, j])
    {
      for x := 0 to w
        invariant fresh(nm.pix)
        invariant forall i, j :: 0 <= i < w && 0 <= j < y ==> nm.pix[i, j] == ToRGBA(m.pix[i, j])
        invariant forall i :: 0 <= i < x ==> nm.pix[i, y] == ToRGBA(m.pix[i, y])
      {
        nm.Set(x, y, m.pix[x, y]);
      }
    }
  }

  /**
   * `RoundImage`: a settable image has its four corners cleared to EmptyColor in place; a
   * *image.YCbCr is copied and the copy, never returned, is rounded, so the caller's image is
   * unchanged; any other image is refused with ErrFormatNotSupported and left untouched.
   */
  method RoundImage(m: Picture, rate: real) returns (err: Option<Error>)
    modifies m.pix
    ensures m.kind == ReadOnly ==> err == Some(ErrFormatNotSupported)
    ensures m.kind != ReadOnly ==> err == None
    ensures m.kind != Settable ==> unchanged(m.pix)
    ensures m.kind == Settable ==>
      forall x, y :: 0 <= x < m.pix.Length0 && 0 <= y < m.pix.Length1 ==>
        m.pix[x, y] == if InCorner(m.pix.Length0, m.pix.Length1, Radius(m.pix.Length0, m.pix.Length1, rate), x, y)
                       then EmptyColor else old(m.pix[x, y])
  {
    var r := Radius(m.pix.Length0, m.pix.Length1, rate);
    if m.kind == Settable {
      RoundCorners(m, r);
    } else if m.kind == YCbCr {
      var rgba := YCbCrToRGBA(m);
      RoundCorners(rgba, r);
    } else {
      return Some(ErrFormatNotSupported);
    }
    return None;
  }

  /** A radius below one (r = 0 in particular) clears nothing: its only scanline writes rows -1 and h. */
  lemma SmallRadiusClearsNothing(w: int, h: int, r: real, x: int, y: int)
    requires r < 1.0 && 0 <= y < h
    ensures !InCorner(w, h, r, x, y)
  {
  }

  /**
   * Every cleared pixel lies in a corner box: among the first or last Round(r) columns and
   * among the first or last floor(r) rows.
   */
  lemma CornerBox(w: int, h: int, r: real, x: int, y: int)
    requires InCorner(w, h, r, x, y)
    ensures r >= 0.0
    ensures x < Round(r) || w - x <= Round(r)
    ensures y < r.Floor || h - y <= r.Floor
  {
    var k: nat :| CornerAt(w, h, r, k, x, y);
    assert k <= r.Floor;
  }
}
