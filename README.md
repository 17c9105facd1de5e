# piconic — a Dafny model of its colour and pixel decisions

piconic turns images into padded, optionally rounded square icons, and draws placeholder
images of a given size with centred text. This project models the decision logic behind
that and proves properties of it:

- the `#RGB` / `#RRGGBB` hex colour parser;
- corner rounding of a mutable pixel buffer, and the YCbCr-to-RGBA copy;
- the colour-spec resolver (`auto`, `auto,<spec>`, `transparent`, `#hex`, SVG and material
  names, and fallbacks), including the paths that panic;
- the auto-background detector;
- the trim-bounds search that shrinks an image to the part not made of trim colours;
- the placeholder helpers: size parsing, the colour resolvers, the trailing `<colour>`
  suffix of the text, and file-name normalisation.

Files and modules:

| file | module | models |
|---|---|---|
| `wrappers.dfy` | `Wrappers` | `Option`, and `Outcome` (a value, or a Go panic with its reason) |
| `colors.dfy` | `Colors` | Go's `color.Color` values and their 16-bit `RGBA()` channels |
| `strings.dfy` | `Strings` | the parts of Go's `strings`/`strconv` the core uses |
| `img.dfy` | `Img` | `internal/utils/img.go` |
| `core.dfy` | `Core` | the logic `internal/icon/icon.go` and `cmd/cli.go` share line for line |
| `icon.dfy` | `Icon` | `internal/icon/icon.go`: `transparent` is `color.Transparent` |
| `cli.dfy` | `Cli` | `cmd/cli.go`: `transparent` is `utils.EmptyColor`, plus the default flags |
| `placeholder.dfy` | `Placeholder` | `internal/icon/placeholder.go` |

Modelling choices:

- **Colours.** A Go `color.Color` is the datatype `Color`, with one case for each concrete
  type the core meets: `color.RGBA`, `color.Alpha16` (so `color.Transparent` is
  `Alpha16(0)`), `color.Gray16` (so `color.Black` is `Gray16(0)`), and `Other` for any
  other type, given by its channels. `Channels` is Go's `RGBA()`. `==` on `Color` is Go's
  interface equality: same dynamic type and same value.
- **Strings** are byte sequences, one `char` per byte. `TrimSpace` trims ASCII white space only.
- **Panics** are `Outcome.Panicked`. Examples: `ParseHexColor(fallback)` failing inside
  `calculateColor`, `rand.Intn(0)`, `ParseHexColor("")` indexing `s[0]`, and `strconv.Atoi`
  overflowing in `ParsePlaceholderSize`.
- **External data.** The SVG and material colour tables, the material name list, the
  CIE76 test `CmpCIE76(c1, c2) > 0.02` and the luminance test of `contrastColor` are not
  part of this model. They are the fields of a `Core.Library` value passed in, so every
  property holds for any tables and any `differs`/`bright` predicates.
- **Randomness.** The value `rand.Intn` draws is a parameter `pick`. The index used is
  `pick mod n`.
- **Decoded images** are read, never written, so they are the value type `Core.Image`.
  Their bounds start at the origin. `At` outside the grid returns a fixed colour.
- **The image `RoundImage` writes** is a class `Img.Picture` over an `array2<Color>`.
  `Set` converts the colour to the RGBA model and ignores points outside the bounds. The
  dynamic-type test `m.(settable)` / `m.(*image.YCbCr)` is the `kind` field.
- **The chord length** `math.Round(r - math.Sqrt(2yr - y²))` is taken in exact arithmetic.
  `Img.Chord` is the largest `k` with `k <= r - sqrt(v) + 1/2`, stated without the square
  root. Its result lies in `0..Round(r)`.
- **The detection threshold** `diffCnt / (4W + 4H) > 0.01` is the integer test
  `100 * diffCnt > 4W + 4H`.

What the code does where one might expect otherwise (the model follows the code):

- The trimmed rectangle's `Max` is the index of the last content column and row, not one
  past it. A 5x5 image with a one-pixel trim frame gives (1,1)-(3,3)
  (`Core.TrimOneFrame`). Cropping to that rectangle drops the last content column and row.
- The detector ranges over a 4-element slice literal, so it visits the indices 0..3, not
  the border coordinates `0, 1, W-2, W-1`. An image with a 2-pixel border around a
  different interior is never detected (`Core.FramedImageNotDetected`). Only pixels with
  x < 4 or y < 4 matter (`Core.OnlyLowIndicesMatter`).
- In `cmd/cli.go`, the copy the program runs, `transparent` is `utils.EmptyColor`: white
  with alpha 0. The default trim `transparent` therefore removes only pixels whose
  `RGBA()` is exactly (0xffff, 0xffff, 0xffff, 0). A fully transparent pixel decoded as
  (0, 0, 0, 0) is kept (`Cli.EmptyColorTrimMatchesOnlyClearWhite`).
- A trim spec of `auto` without a comma panics whenever detection fails. Its fallback is
  `transparent`, which is not a hex colour (`Core.TransparentFallbackPanicsIff`).
- The placeholder background spec `""` reaches `ParseHexColor("")` and panics.

## Model

| member | source | states |
|---|---|---|
| Img.ParseHexColor | internal/utils/img.go:13-46 | alpha is 0xff on every result, errors included; no error exactly for `#` followed by 3 or 6 hex digits; any other error is ErrInvalidHexColor; 7-byte channels are 16·hi+lo of their digit pairs; 4-byte channels are digit·17 |
| Img.ShortFormDoublesDigits | internal/utils/img.go:34-41 | `#abc` parses to the same colour and error as `#aabbcc`, for any three bytes |
| Img.CaseInsensitive | internal/utils/img.go:20-30 | upper- and lower-case hex digits give the same colour and the same error |
| Img.FormatThenParse | internal/utils/img.go:33-37 | every opaque RGBA colour written as `#rrggbb` parses back to itself with no error |
| Img.Picture.NewRGBA | internal/utils/img.go:89 | a fresh settable buffer of the requested size, all zero pixels |
| Img.Picture.Set | internal/utils/img.go:48-50 | writes the RGBA-model conversion of the colour at an in-bounds point and changes nothing else; an out-of-bounds point changes nothing |
| Img.Chord | internal/utils/img.go:70 | the chord length lies in 0..Round(r) and is the largest integer within `r - sqrt(2yr - y²) + 1/2` |
| Img.ClearRun | internal/utils/img.go:71-73 | one inner loop clears row `row` at columns x-1 (or w-x) for x in 0..l, in-bounds ones only, and nothing else |
| Img.RoundCorners | internal/utils/img.go:69-83 | after the scanline loop, exactly the pixels in the four corner regions are EmptyColor; every other pixel is unchanged |
| Img.YCbCrToRGBA | internal/utils/img.go:87-96 | a fresh settable buffer of the same size holding every pixel converted to the RGBA model |
| Img.RoundImage | internal/utils/img.go:54-85 | a read-only image gives ErrFormatNotSupported and is untouched; a YCbCr image gives nil and is untouched, because only its copy is rounded; a settable image gives nil and has its corner pixels, and only those, set to EmptyColor |
| Img.Radius | internal/utils/img.go:57 | a non-negative rate gives a non-negative radius; rate 1 gives half the shorter side |
| Img.RadiusGrows | internal/utils/img.go:57 | the radius never shrinks when the rate grows |
| Img.ChordGrows | internal/utils/img.go:69-70 | at each scanline the chord length never shrinks when the radius grows |
| Img.InCornerGrows | internal/utils/img.go:69-82 | every pixel the loop clears at radius r it also clears at any larger radius |
| Img.RoundingGrowsWithRate | internal/utils/img.go:57-82 | a larger rounding rate clears a superset of the pixels a smaller rate clears |
| Img.SmallRadiusClearsNothing | internal/utils/img.go:69-82 | a radius below 1, r = 0 included, clears no in-bounds pixel |
| Img.CornerBox | internal/utils/img.go:69-82 | a cleared pixel is within Round(r) columns of the left or right edge and within floor(r) rows of the top or bottom |
| Core.IsContainAnyColors | internal/icon/icon.go:164-173 | true exactly when some listed colour equals the pixel on all four RGBA() channels; false for an empty list |
| Colors.ToRGBA | internal/utils/img.go:90-94 | the RGBA-model conversion yields an RGBA colour, keeps an RGBA colour as it is, and keeps the top byte of each RGBA() channel of any other colour |
| Core.Uniq | internal/icon/icon.go:113 | the deduplicated trim list has the same members and no repeats |
| Core.UniqKeepsMatches | internal/icon/icon.go:113 | deduplicating the trim list does not change which pixels match it |
| Core.CalculateAutoBackgroundColor | internal/icon/icon.go:232-270 | the loops' result is the detection: always the top-left pixel; success exactly when both sides exceed 8, 100·diffCnt ≤ 4W+4H over cells x∈0..3 of rows 2..H-3 and y∈0..3 of every column, and the top-left alpha is not 0 |
| Core.AutoBackground | internal/icon/icon.go:232-270 | the detected colour is always the top-left pixel; detection succeeds exactly when both sides exceed 8, the top-left alpha is not 0 and 100·diffCnt ≤ 4W+4H |
| Core.OnlyLowIndicesMatter | internal/icon/icon.go:242-259 | two images of one size that agree wherever x < 4 or y < 4 get the same detection |
| Core.UniformImageDetected | internal/icon/icon.go:232-270 | a uniform opaque image of at least 9x9 whose colour does not differ from itself is detected with that colour |
| Core.FramedImageNotDetected | internal/icon/icon.go:240-264 | a 2-pixel uniform frame around a differing interior is never detected, for every size from 9x9 up |
| Core.FirstContent | internal/icon/icon.go:119-139 | the first column (row) from i with a non-trim pixel, and none before it; None when there is none |
| Core.LastContent | internal/icon/icon.go:141-160 | the last column (row) below n with a non-trim pixel, and none after it; None when there is none |
| Core.TrimBounds | internal/icon/icon.go:115-160 | the four labelled scans produce TrimmedRect: Min is the first content column and row, Max the last, and a scan that finds nothing leaves the bound |
| Core.ScanMinX | internal/icon/icon.go:119-128 | Min.X is the first column holding a non-trim pixel, or 0 when there is none |
| Core.ScanMinY | internal/icon/icon.go:130-139 | Min.Y is the first row holding a non-trim pixel, or 0 when there is none |
| Core.ScanMaxX | internal/icon/icon.go:141-150 | Max.X is the index of the last column holding a non-trim pixel, or W when there is none |
| Core.ScanMaxY | internal/icon/icon.go:151-160 | Max.Y is the index of the last row holding a non-trim pixel, or H when there is none |
| Core.TrimmedRect | internal/icon/icon.go:115-160 | the trimmed rectangle always has 0 ≤ Min ≤ Max ≤ (W, H) on both axes |
| Core.CollectTrimColors | internal/icon/icon.go:108-112 | the append loop yields the trim list TrimColors, or the first panic met |
| Core.TrimColorsPanicPersists | internal/icon/icon.go:110-112 | once one spec panics, the later specs change nothing |
| Core.TrimColorsPerSpec | internal/icon/icon.go:108-112 | the trim list has one colour per comma-separated spec, in order, each resolved from the trimmed spec with fallback `transparent` |
| Core.TrimColorsPanicsIff | internal/icon/icon.go:108-112 | building the trim list panics exactly when resolving one of its trimmed specs with fallback `transparent` panics |
| Core.SingleTrimSpec | internal/icon/icon.go:108-111 | a spec without commas or edge spaces gives the one-colour list of its resolution |
| Core.CalculateTargetRect | internal/icon/icon.go:104-162 | an empty trim spec gives the background colour and exactly the bounds, with no scan; otherwise a trim panic comes first, then the background colour with the trimmed rectangle of the deduplicated list |
| Core.ContentInsideTrimmedRect | internal/icon/icon.go:119-160 | every non-trim pixel lies in [Min, Max] on both axes, Max included |
| Core.TrimmedEdgesHaveContent | internal/icon/icon.go:119-160 | when any non-trim pixel exists, Min ≤ Max < size on both axes and columns Min.X, Max.X and rows Min.Y, Max.Y each hold one |
| Core.OutsideTrimmedRectIsTrim | internal/icon/icon.go:119-160 | every pixel left of Min.X, above Min.Y, right of Max.X or below Max.Y is a trim colour |
| Core.AllTrimKeepsBounds | internal/icon/icon.go:116-160 | if every pixel is a trim colour the result is exactly the bounds |
| Core.NoTrimColorsSpanGrid | internal/icon/icon.go:141-160 | with nothing to trim Max is (W-1, H-1), one short of the bounds |
| Core.TrimOneFrame | internal/icon/icon.go:119-160 | a one-pixel trim frame around a differing interior gives (1,1)-(W-2,H-2) |
| Core.ResolveName | internal/icon/icon.go:194-229 | `transparent` gives the transparent value; a name without `#` gives its SVG entry, and its material entry only when the SVG table lacks it; well-formed hex gives its parse; anything else gives the transparent value for fallback `transparent`, else the parsed fallback, else a panic |
| Core.ResolveColor | internal/icon/icon.go:175-230 | an `auto` prefix gives the top-left pixel when detection succeeds; a failed detection without a comma gives the parsed fallback, or a panic when the fallback is malformed; with a comma, the trimmed second segment is resolved as a plain spec; any other spec is resolved as a plain spec |
| Core.NameLookupOrder | internal/icon/icon.go:198-214 | a plain name found in either table resolves to its SVG entry when it has one, else to its material entry, whatever the image and fallback |
| Core.TransparentSpecResolves | internal/icon/icon.go:194-196 | the spec `transparent` resolves to the transparent value for every fallback and image |
| Core.TransparentFallbackPanicsIff | internal/icon/icon.go:176-189 | with fallback `transparent`, resolution panics exactly for an `auto` prefix with no comma whose detection fails |
| Core.ImageOnlyThroughDetection | internal/icon/icon.go:176-192 | the image affects the colour only through the detection result; after a failed detection with a comma it does not matter at all |
| Core.HexFallbackNeverPanics | internal/icon/icon.go:175-230 | with a well-formed hex fallback resolution never panics |
| Core.ResolvedColorOrigin | internal/icon/icon.go:175-230 | a resolved colour is the detected pixel, the transparent value, an SVG or material table colour, or an opaque parsed hex colour |
| Core.HexSpecResolves | internal/icon/icon.go:198-229 | a well-formed hex spec resolves to its parse and consults no table and no fallback |
| Core.UnknownSpecFallsBack | internal/icon/icon.go:198-228 | a spec that is no table name and no valid hex resolves to the transparent value for fallback `transparent`, else to the parsed fallback, and panics when that is malformed |
| Icon.CalculateColor | internal/icon/icon.go:175-230 | `transparent` resolves to color.Transparent; a successful detection gives the top-left pixel; a failed `auto` without a comma gives the parsed fallback or panics; a plain name gives its SVG entry, else its material entry; any other non-auto result is an opaque hex colour or a table colour |
| Icon.TransparentTrimList | internal/icon/icon.go:108-111 | the trim spec `transparent` builds the list [color.Transparent] |
| Icon.TransparentTrimMatchesClearPixels | internal/icon/icon.go:164-173 | with that list a pixel is trimmed exactly when all four of its RGBA() channels are 0 |
| Cli.CalculateColor | cmd/cli.go:292-347 | `transparent` resolves to EmptyColor; a successful detection gives the top-left pixel; a failed `auto` without a comma gives the parsed fallback or panics; a plain name gives its SVG entry, else its material entry; any non-auto result is EmptyColor, an opaque hex colour or a table colour |
| Cli.CalculateTargetRect | cmd/cli.go:221-279 | the running copy of the trim and background decision, with `transparent` as EmptyColor |
| Cli.DefaultSpecs | cmd/cli.go:49-56 | the default background is `auto,#f1f5f9` and the default trim `transparent` |
| Cli.DefaultBackgroundSegment | cmd/cli.go:54 | the default background has a comma and its second segment is `#f1f5f9` |
| Cli.DefaultHexParses | cmd/cli.go:25 | `#f1f5f9` parses without error to RGBA(0xf1, 0xf5, 0xf9, 0xff) |
| Cli.DefaultBackgroundResolves | cmd/cli.go:292-309 | the default background is the detected pixel when detection succeeds, else RGBA(0xf1, 0xf5, 0xf9, 0xff); it never panics |
| Cli.DefaultTrimList | cmd/cli.go:225-229 | the default trim spec builds the list [EmptyColor] |
| Cli.EmptyColorTrimMatchesOnlyClearWhite | cmd/cli.go:281-289 | with trim list [EmptyColor] a pixel is trimmed exactly when its RGBA() is (0xffff, 0xffff, 0xffff, 0); a (0,0,0,0) pixel is never trimmed |
| Cli.BadHexFallsBackToEmptyColor | cmd/cli.go:333-340 | a malformed `#…` spec with fallback `transparent` resolves to EmptyColor |
| Placeholder.Atoi | internal/icon/placeholder.go:60-67 | a digit string converts to its decimal value when that is at most MaxInt, and fails (panics in the caller) above |
| Placeholder.ParsePlaceholderSize | internal/icon/placeholder.go:51-69 | a non-matching size gives (0, 0, false); a valid result has w, h ≥ 1 |
| Placeholder.SizeParseMeaning | internal/icon/placeholder.go:40 | valid exactly when the size matches `^[1-9][0-9]*x[1-9][0-9]*$` and both numbers fit an int; then w and h are the two decimal values; only a matching size can panic |
| Placeholder.SplitMatchedSize | internal/icon/placeholder.go:56-59 | a matching size splits on `x` into exactly its two numbers |
| Placeholder.DimStringShape | internal/icon/placeholder.go:78 | the `%dx%d` text of a size with w, h ≥ 1 matches the size pattern and splits at its `x` into the two numbers |
| Placeholder.SizeRoundTrip | internal/icon/placeholder.go:51-69 | parsing the `%dx%d` text of any w, h in 1..MaxInt gives back (w, h, true) |
| Placeholder.PlaceholderColor | internal/icon/placeholder.go:239-269 | `auto…` gives a material colour with ok; `transparent` gives (Transparent, true); a plain name gives its SVG entry, else its material entry, with ok; a result with ok false is Transparent; only an empty name list or an empty name panics |
| Placeholder.PlaceholderColorOk | internal/icon/placeholder.go:239-269 | for a non-empty name, ok holds exactly when the spec resolves (auto, transparent, a table name without `#`, valid hex) or the fallback, consulted once unless it is `transparent` or empty, does |
| Placeholder.PlaceholderBackgroundColor | internal/icon/placeholder.go:227-237 | the resolved colour when ok, else the parse of `#f1f5f9` |
| Placeholder.HexPlaceholderColor | internal/icon/placeholder.go:260-263 | a well-formed hex spec gives its parse with ok, whatever the fallback |
| Placeholder.DefaultBackgroundParses | internal/icon/placeholder.go:235 | `#f1f5f9` resolves to (RGBA(0xf1, 0xf5, 0xf9, 0xff), true) |
| Placeholder.BackgroundNeverPanics | internal/icon/placeholder.go:227-237 | a non-empty background spec never panics once the material name list is non-empty |
| Placeholder.FindSuffixFrom | internal/icon/placeholder.go:41 | the leftmost match of `(<.+>)$`: `<`, at least one non-newline byte, and `>` ending the text; "" when there is none |
| Placeholder.FindSuffix | internal/icon/placeholder.go:41 | a match of `(<.+>)$` is a suffix of the text of at least 3 bytes that starts with `<` and ends with `>` |
| Placeholder.ContrastColor | internal/icon/placeholder.go:272-292 | the contrast colour is one of the two opaque greys (18,18,18) and (250,250,250) |
| Placeholder.NamedSuffix | internal/icon/placeholder.go:208-216 | a match shorter than 3 bytes is no suffix; a used suffix names the colour its inner name resolves to with ok; the text left is dimStr or non-empty with no white space at either end and no longer than the text without the suffix; a panic needs an empty material name list |
| Placeholder.PlaceholderTextColor | internal/icon/placeholder.go:207-225 | panics only through `rand.Intn(0)`, an empty material name list; the text drawn is the text itself, dimStr, or a shorter non-empty remainder with no white space at either end |
| Placeholder.FindSuffixLeftmost | internal/icon/placeholder.go:208 | FindString returns the suffix match that starts leftmost |
| Placeholder.NamedTextColor | internal/icon/placeholder.go:207-216 | a trailing `<name>` that resolves gives that colour, and the text before it with spaces trimmed, or dimStr when that is empty |
| Placeholder.DefaultTextColor | internal/icon/placeholder.go:217-224 | with no suffix, or one that does not resolve, the text is kept whole; its colour is black on color.Transparent, else one of the opaque greys (18,18,18) and (250,250,250) |
| Placeholder.Normalize | internal/icon/placeholder.go:26-37 | the result is no longer than the input and has no space and none of the bytes ?\:/<>%*" |
| Placeholder.NormalizeConcat | internal/icon/placeholder.go:26-37 | the normaliser works byte by byte: normalising a concatenation concatenates the normalised parts |
| Placeholder.NormalizeByte | internal/icon/placeholder.go:26-37 | a space becomes `-`, each of ?\:/<>%*" is deleted, and every other byte is kept |
| Placeholder.NormalizeFixesOnlyClean | internal/icon/placeholder.go:26-37 | a name is left unchanged exactly when it has no space and none of those bytes |
| Placeholder.NormalizeIdempotent | internal/icon/placeholder.go:26-37 | normalising twice is normalising once |
| Placeholder.PlaceholderText | internal/icon/placeholder.go:78-84 | "" becomes dimStr, `<none>` becomes "", anything else is kept |
| Placeholder.OutputName | internal/icon/placeholder.go:91-94 | the name is the bare name `<W>x<H>pc<padding>.png`, prefixed by the normalised text and `.` exactly when the text is non-empty and differs from dimStr |
| Placeholder.OutputNameClean | internal/icon/placeholder.go:91-94 | for a valid size the name has no space and none of the normaliser's bytes, and it is the bare `<W>x<H>pc<padding>.png` exactly when the text is empty or equals dimStr |

## Left out

- CIE76 colour distance and the LAB conversion: the `differs` predicate stands for them. Their implementation is not part of this model and is floating point.
- `contrastColor`'s luminance arithmetic (floats and `math.Pow`): only its choice between the two greys is modelled, through the `bright` predicate.
- `calculateFontSize` and `calculateFontHeight`: floating-point font sizes and freetype metrics from a library not in view.
- `resize` and the CatmullRom scaling, `draw.Draw` compositing, PNG encoding and all file I/O (`canWriteOutImage`, `writeOutImage`, the I/O parts of `generateIcon`, `WriteIcon` and `WritePlaceholder`).
- internal/scan/scan.go: directory walking, decoding and the goroutine feeding a channel.
- The command line: the semaphore-channel concurrency of `process`/`Run`, cobra wiring, and the slog setup and warnings. Log output is not modelled.
- main.go: font embedding and wiring only.
- `utils.Uniq` is not part of this model. `Core.Uniq` keeps the first of each repeated colour, which is all the trim search depends on.
- Img.Chord: computed in exact real arithmetic. Float rounding of `math.Sqrt` and `math.Round` near half-integers is not modelled.
- Img.Picture.Set: any settable type stores the RGBA-model conversion. A settable non-RGBA image, which the program never passes, would convert to its own model.
- Core.Image: bounds always start at (0,0). Decoded images in the program do too.
- Core.CalculateAutoBackgroundColor: the float ratio test is the exact integer test. The two sides are integers far apart compared with float64 rounding.
- Placeholder.PlaceholderColor: requires every material name to have a table entry, which the material tables guarantee. `rand.Intn` is the parameter `pick`.
- Placeholder.ParsePlaceholderSize: the regular expression is the predicate `MatchesSize`. Atoi's sign handling is not modelled, since a matching part is digits only.
- Strings are bytes. Go's Unicode white space in `TrimSpace` beyond ASCII is not modelled.
