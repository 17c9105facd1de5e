/**
 * internal/icon/placeholder.go: the decisions behind a placeholder image — its size, its
 * background and text colours, the text drawn and the output file name. Font fitting,
 * drawing and writing the file are not modelled.
 */
module Placeholder {
  import opened Wrappers
  import opened Colors
  import opened Strings
  import Img
  import Core

  // ---------------------------------------------------------------------------
  // ParsePlaceholderSize

  /** A match of `[1-9][0-9]*`: digits with no leading zero. */
  predicate PositiveDecimal(t: string) {
    |t| >= 1 && '1' <= t[0] <= '9' && AllDigits(t)
  }

  /**
   * A match of `^[1-9][0-9]*x[1-9][0-9]*$`. Neither number contains an `x`, so the first
   * `x` is the separator.
   */
  predicate MatchesSize(s: string) {
    'x' in s && PositiveDecimal(s[..IndexOf(s, 'x')]) && PositiveDecimal(s[IndexOf(s, 'x') + 1..])
  }

  /** The (w, h, valid) triple ParsePlaceholderSize returns. */
  datatype Size = Size(w: int, h: int, valid: bool)

  /** strconv.Atoi on a string of decimal digits: a range error above MaxInt, which the caller panics on. */
  function Atoi(t: string): (r: Outcome<int>)
    requires AllDigits(t)
    ensures r.Returned? <==> DecimalValue(t) <= MaxInt
    ensures r.Returned? ==> r.value == DecimalValue(t)
  {
    var v := DecimalValue(t);
    if v > MaxInt then Panicked("value out of range") else Returned(v)
  }

  /** `ParsePlaceholderSize(size)`; an Atoi error is a panic. */
  function ParsePlaceholderSize(size: string): (r: Outcome<Size>)
    ensures !MatchesSize(size) ==> r == Returned(Size(0, 0, false))
    ensures r.Returned? && r.value.valid ==> r.value.w >= 1 && r.value.h >= 1
  {
    if !MatchesSize(size) then Returned(Size(0, 0, false))
    else
      var wh := Split(size, 'x');
      if |wh| != 2 then Returned(Size(0, 0, false))
      else if !AllDigits(wh[0]) || !AllDigits(wh[1]) then Returned(Size(0, 0, false))
      else
        match Atoi(wh[0])
        case Panicked(m) => Panicked(m)
        case Returned(w) =>
          match Atoi(wh[1])
          case Panicked(m) => Panicked(m)
          case Returned(h) =>
            assert PositiveDecimal(wh[0]) && PositiveDecimal(wh[1]) by {
              SplitMatchedSize(size);
            }
            PositiveDecimalAtLeastOne(wh[0]);
            PositiveDecimalAtLeastOne(wh[1]);
            Returned(Size(w, h, true))
  }

  lemma {:induction false} PositiveDecimalAtLeastOne(t: string)
    requires PositiveDecimal(t)
    ensures DecimalValue(t) >= 1
    decreases |t|
  {
    if |t| > 1 {
      var init := t[..|t| - 1];
      assert init[0] == t[0];
      assert AllDigits(init) by {
        forall k | 0 <= k < |init| ensures IsDigit(init[k]) {
          assert init[k] == t[k];
        }
      }
      PositiveDecimalAtLeastOne(init);
    }
  }

  /** A matching size splits into exactly its two numbers. */
  lemma SplitMatchedSize(size: string)
    requires MatchesSize(size)
    ensures Split(size, 'x') == [size[..IndexOf(size, 'x')], size[IndexOf(size, 'x') + 1..]]
  {
    var i := IndexOf(size, 'x');
    var rest := size[i + 1..];
    assert 'x' !in rest by {
      forall k | 0 <= k < |rest| ensures rest[k] != 'x' {
        assert IsDigit(rest[k]);
      }
    }
  }

  /**
   * The result is valid exactly when the input matches the pattern and both numbers fit in
   * a Go int; then w and h are the two decimal values. A match whose number overflows panics.
   */
  lemma SizeParseMeaning(size: string)
    ensures ParsePlaceholderSize(size).Returned? && ParsePlaceholderSize(size).value.valid <==>
      MatchesSize(size)
      && DecimalValue(size[..IndexOf(size, 'x')]) <= MaxInt
      && DecimalValue(size[IndexOf(size, 'x') + 1..]) <= MaxInt
    ensures MatchesSize(size) && ParsePlaceholderSize(size).Returned? ==>
      ParsePlaceholderSize(size).value ==
        Size(DecimalValue(size[..IndexOf(size, 'x')]), DecimalValue(size[IndexOf(size, 'x') + 1..]), true)
    ensures ParsePlaceholderSize(size).Panicked? ==> MatchesSize(size)
  {
    if MatchesSize(size) {
      SplitMatchedSize(size);
    }
  }

  /** The string `fmt.Sprintf("%dx%d", w, h)`. */
  function DimString(w: int, h: int): string {
    Itoa(w) + "x" + Itoa(h)
  }

  /** Formatting a size and parsing it back gives the size. */
  lemma SizeRoundTrip(w: int, h: int)
    requires 1 <= w <= MaxInt && 1 <= h <= MaxInt
    ensures ParsePlaceholderSize(DimString(w, h)) == Returned(Size(w, h, true))
  {
    DimStringShape(w, h);
    SizeParseMeaning(DimString(w, h));
  }

  /** The `%dx%d` text of a valid size matches the pattern, with its two numbers around the `x`. */
  lemma DimStringShape(w: int, h: int)
    requires 1 <= w && 1 <= h
    ensures MatchesSize(DimString(w, h))
    ensures DimString(w, h)[..IndexOf(DimString(w, h), 'x')] == NatToString(w)
    ensures DimString(w, h)[IndexOf(DimString(w, h), 'x') + 1..] == NatToString(h)
  {
    var ws, hs := NatToString(w), NatToString(h);
    assert PositiveDecimal(ws) && PositiveDecimal(hs);
    JoinedSizeShape(ws, hs);
  }

  /** Two numbers joined by `x` match the pattern and split back into the two numbers. */
  lemma JoinedSizeShape(ws: string, hs: string)
    requires PositiveDecimal(ws) && PositiveDecimal(hs)
    ensures var s := ws + "x" + hs;
      MatchesSize(s) && s[..IndexOf(s, 'x')] == ws && s[IndexOf(s, 'x') + 1..] == hs
  {
    var s := ws + "x" + hs;
    assert 'x' !in ws by {
      forall k | 0 <= k < |ws| ensures ws[k] != 'x' {
        assert IsDigit(ws[k]);
      }
    }
    assert s[|ws|] == 'x';
    IndexOfAfterPrefix(s, ws, 'x');
    assert s[..|ws|] == ws;
    assert s[|ws| + 1..] == hs;
  }

  /** The first occurrence of `c` after a prefix that lacks it. */
  lemma IndexOfAfterPrefix(s: string, p: string, c: char)
    requires |p| < |s| && s[..|p|] == p && c !in p && s[|p|] == c
    ensures c in s && IndexOf(s, c) == |p|
  {
  }

  // ---------------------------------------------------------------------------
  // calculatePlaceholderColor

  /** Every name in the material name list has an entry in the material table. */
  predicate NamesListed(lib: Core.Library) {
    forall k :: 0 <= k < |lib.materialNames| ==> lib.materialNames[k] in lib.material
  }

  /**
   * `calculatePlaceholderColor(cname, fallback)`, with `pick` standing for the value
   * rand.Intn draws (the index used is pick mod the number of names). rand.Intn(0) and
   * ParseHexColor("") panic.
   */
  function PlaceholderColor(lib: Core.Library, pick: nat, cname: string, fallback: string): (r: Outcome<(Color, bool)>)
    requires NamesListed(lib)
    ensures HasPrefix(cname, Core.AutoColor) && |lib.materialNames| > 0 ==>
      r.Returned? && r.value.1 && r.value.0 in lib.material.Values
    ensures cname == Core.TransparentColor ==> r == Returned((Transparent, true))
    ensures !HasPrefix(cname, Core.AutoColor) && !HasPrefix(cname, "#") && cname != Core.TransparentColor
            && cname in lib.svg ==>
      r == Returned((lib.svg[cname], true))
    ensures !HasPrefix(cname, Core.AutoColor) && !HasPrefix(cname, "#") && cname != Core.TransparentColor
            && cname !in lib.svg && cname in lib.material ==>
      r == Returned((lib.material[cname], true))
    ensures r.Returned? && !r.value.1 ==> r.value.0 == Transparent
    ensures r.Panicked? ==> |lib.materialNames| == 0 || cname == ""
    decreases if fallback == Core.TransparentColor || fallback == "" then 0 else 1
  {
    assert Core.TransparentColor[0] != Core.AutoColor[0];
    if HasPrefix(cname, Core.AutoColor) then
      var n := |lib.materialNames|;
      if n == 0 then Panicked("invalid argument to Intn")
      else Returned((lib.material[lib.materialNames[pick % n]], true))
    else if cname == Core.TransparentColor then Returned((Transparent, true))
    else if !HasPrefix(cname, "#") && cname in lib.svg then Returned((lib.svg[cname], true))
    else if !HasPrefix(cname, "#") && cname in lib.material then Returned((lib.material[cname], true))
    else if cname == "" then Panicked("index out of range")
    else
      var p := Img.ParseHexColor(cname);
      if p.err == None then Returned((p.c, true))
      else if fallback == Core.TransparentColor || fallback == "" then Returned((Transparent, false))
      else PlaceholderColor(lib, pick, fallback, Core.TransparentColor)
  }

  /** A spec that resolves on its own, with no fallback: auto, transparent, a table name or valid hex. */
  predicate Resolves(lib: Core.Library, cname: string) {
    || HasPrefix(cname, Core.AutoColor)
    || cname == Core.TransparentColor
    || (!HasPrefix(cname, "#") && (cname in lib.svg || cname in lib.material))
    || Img.WellFormedHex(cname)
  }

  /**
   * ok is true exactly when the spec resolves, or, failing that, when the fallback does;
   * a fallback is consulted once and only when it is neither "transparent" nor empty.
   * Resolved colours come from the tables, are color.Transparent, or are opaque hex.
   */
  lemma PlaceholderColorOk(lib: Core.Library, pick: nat, cname: string, fallback: string)
    requires NamesListed(lib) && cname != "" && |lib.materialNames| > 0
    ensures PlaceholderColor(lib, pick, cname, fallback).Returned?
    ensures PlaceholderColor(lib, pick, cname, fallback).value.1 <==>
      Resolves(lib, cname)
      || (fallback != Core.TransparentColor && fallback != "" && Resolves(lib, fallback))
    ensures var c := PlaceholderColor(lib, pick, cname, fallback).value.0;
      c == Transparent || c in lib.svg.Values || c in lib.material.Values || (c.RGBA? && c.a == 0xff)
  {
    assert !Img.WellFormedHex(Core.TransparentColor);
    assert Img.WellFormedHex(cname) ==> HasPrefix(cname, "#") by {
      if Img.WellFormedHex(cname) { assert cname[..1] == "#"; }
    }
    assert Img.WellFormedHex(fallback) ==> HasPrefix(fallback, "#") by {
      if Img.WellFormedHex(fallback) { assert fallback[..1] == "#"; }
    }
    if HasPrefix(cname, Core.AutoColor) {
      assert cname[0] == 'a';
      assert !Img.WellFormedHex(cname);
    }
    if HasPrefix(fallback, Core.AutoColor) {
      assert fallback[0] == 'a';
      assert !Img.WellFormedHex(fallback);
    }
  }

  /** `calculatePlaceholderBackgroundColor(bg)`: the resolved colour, else the parse of "#f1f5f9". */
  function PlaceholderBackgroundColor(lib: Core.Library, pick: nat, bg: string): (r: Outcome<Color>)
    requires NamesListed(lib)
    ensures (PlaceholderColor(lib, pick, bg, Core.TransparentColor).Returned?
             && !PlaceholderColor(lib, pick, bg, Core.TransparentColor).value.1) ==>
      r == Returned(RGBA(0xf1, 0xf5, 0xf9, 0xff))
    ensures (PlaceholderColor(lib, pick, bg, Core.TransparentColor).Returned?
             && PlaceholderColor(lib, pick, bg, Core.TransparentColor).value.1) ==>
      r == Returned(PlaceholderColor(lib, pick, bg, Core.TransparentColor).value.0)
  {
    match PlaceholderColor(lib, pick, bg, Core.TransparentColor)
    case Panicked(m) => Panicked(m)
    case Returned((c, ok)) =>
      if ok then Returned(c)
      else
        DefaultBackgroundParses(lib, pick);
        match PlaceholderColor(lib, pick, Core.BackgroundDefaultColor, Core.TransparentColor)
        case Panicked(m) => Panicked(m)
        case Returned((d, _)) => Returned(d)
  }

  /** "#f1f5f9" resolves, through the hex parser, to opaque RGBA(0xf1, 0xf5, 0xf9, 0xff). */
  lemma DefaultBackgroundParses(lib: Core.Library, pick: nat)
    requires NamesListed(lib)
    ensures PlaceholderColor(lib, pick, Core.BackgroundDefaultColor, Core.TransparentColor)
      == Returned((RGBA(0xf1, 0xf5, 0xf9, 0xff), true))
  {
    Img.FormatThenParse(RGBA(0xf1, 0xf5, 0xf9, 0xff));
    assert Img.FormatHex(RGBA(0xf1, 0xf5, 0xf9, 0xff)) == Core.BackgroundDefaultColor;
    HexPlaceholderColor(lib, pick, Core.BackgroundDefaultColor, Core.TransparentColor);
  }

  /** A well-formed hex spec resolves to its parse, with ok, and consults no table. */
  lemma HexPlaceholderColor(lib: Core.Library, pick: nat, s: string, fallback: string)
    requires NamesListed(lib) && Img.WellFormedHex(s)
    ensures PlaceholderColor(lib, pick, s, fallback) == Returned((Img.ParseHexColor(s).c, true))
  {
    assert s[..1] == "#";
    assert s[0] != Core.AutoColor[0] && s[0] != Core.TransparentColor[0];
  }

  /** The background never panics for a non-empty spec once the material name list is non-empty. */
  lemma BackgroundNeverPanics(lib: Core.Library, pick: nat, bg: string)
    requires NamesListed(lib) && bg != "" && |lib.materialNames| > 0
    ensures PlaceholderBackgroundColor(lib, pick, bg).Returned?
  {
    DefaultBackgroundParses(lib, pick);
  }

  // ---------------------------------------------------------------------------
  // calculatePlaceholderTextColor

  /** `(<.+>)$` matches text[i..]: a `<`, at least one non-newline byte, and a final `>`. */
  predicate SuffixAt(text: string, i: int) {
    && 0 <= i && i + 3 <= |text|
    && text[i] == '<' && text[|text| - 1] == '>'
    && forall k :: i < k < |text| - 1 ==> text[k] != '\n'
  }

  /** The leftmost match of `(<.+>)$` at or after i, as FindString reports it ("" for none). */
  function FindSuffixFrom(text: string, i: nat): (m: string)
    requires i <= |text|
    ensures m == "" ==> forall j :: i <= j < |text| ==> !SuffixAt(text, j)
    ensures m != "" ==> |m| >= 3 && m[0] == '<' && m[|m| - 1] == '>' && HasSuffix(text, m)
    ensures m != "" ==> exists j :: (i <= j < |text| && SuffixAt(text, j) && m == text[j..]
      && forall k :: i <= k < j ==> !SuffixAt(text, k))
    decreases |text| - i
  {
    if i + 3 > |text| then ""
    else if SuffixAt(text, i) then text[i..]
    else FindSuffixFrom(text, i + 1)
  }

  /** `placeholderTextColorRegex.FindString(text)`. */
  function FindSuffix(text: string): (m: string)
    ensures m == "" || (|m| >= 3 && m[0] == '<' && m[|m| - 1] == '>' && HasSuffix(text, m))
  {
    FindSuffixFrom(text, 0)
  }

  /** contrastColor: dark grey on a bright background, light grey otherwise. */
  function ContrastColor(lib: Core.Library, bg: Color): (c: Color)
    ensures c == RGBA(18, 18, 18, 255) || c == RGBA(250, 250, 250, 255)
    ensures Alpha(c) == 0xffff
  {
    if lib.bright(bg) then RGBA(18, 18, 18, 255) else RGBA(250, 250, 250, 255)
  }

  /** `calculatePlaceholderTextColor(text, bg, dimStr)`: the text to draw and its colour. */
  function PlaceholderTextColor(lib: Core.Library, pick: nat, text: string, bg: Color, dimStr: string)
    : (r: Outcome<(string, Color)>)
    requires NamesListed(lib)
    ensures r.Panicked? ==> |lib.materialNames| == 0
    ensures r.Returned? ==> var t := r.value.0;
      t == text || t == dimStr || (t != [] && !IsSpace(t[0]) && !IsSpace(t[|t| - 1]) && |t| < |text|)
  {
    var named := NamedSuffix(lib, pick, text, FindSuffix(text), dimStr);
    if named.Some? then named.value
    else if bg == Transparent then Returned((text, Black))
    else Returned((text, ContrastColor(lib, bg)))
  }

  /** The first branch of calculatePlaceholderTextColor: None when it falls through. */
  function NamedSuffix(lib: Core.Library, pick: nat, text: string, cname: string, dimStr: string)
    : (r: Option<Outcome<(string, Color)>>)
    requires NamesListed(lib)
    ensures |cname| < 3 ==> r.None?
    ensures r.Some? && r.value.Panicked? ==> |lib.materialNames| == 0
    ensures r.Some? && r.value.Returned? ==>
      && PlaceholderColor(lib, pick, cname[1..|cname| - 1], Core.TransparentColor).Returned?
      && PlaceholderColor(lib, pick, cname[1..|cname| - 1], Core.TransparentColor).value.1
      && r.value.value.1 == PlaceholderColor(lib, pick, cname[1..|cname| - 1], Core.TransparentColor).value.0
    ensures r.Some? && r.value.Returned? ==> var t := r.value.value.0;
      t == dimStr || (t != [] && !IsSpace(t[0]) && !IsSpace(t[|t| - 1])
                      && (HasSuffix(text, cname) ==> |t| <= |text| - |cname|))
  {
    if |cname| < 3 then None
    else
      match PlaceholderColor(lib, pick, cname[1..|cname| - 1], Core.TransparentColor)
      case Panicked(m) => Some(Panicked(m))
      case Returned((c, ok)) =>
        if !ok then None
        else
          var rest := TrimSpace(TrimSuffix(text, cname));
          Some(Returned((if rest == "" then dimStr else rest, c)))
  }

  /** FindString reports the match that starts leftmost. */
  lemma FindSuffixLeftmost(text: string, i: nat)
    requires SuffixAt(text, i) && forall k :: 0 <= k < i ==> !SuffixAt(text, k)
    ensures FindSuffix(text) == text[i..]
  {
    var cname := FindSuffix(text);
    if cname != "" {
      var j :| 0 <= j < |text| && SuffixAt(text, j) && cname == text[j..] && forall k :: 0 <= k < j ==> !SuffixAt(text, k);
      assert !(j < i) && !(i < j);
    }
  }

  /**
   * A trailing `<name>` that resolves is cut off together with the white space before it,
   * and names the colour; text left empty becomes dimStr.
   */
  lemma NamedTextColor(lib: Core.Library, pick: nat, text: string, bg: Color, dimStr: string, i: nat)
    requires NamesListed(lib) && |lib.materialNames| > 0
    requires SuffixAt(text, i) && forall k :: 0 <= k < i ==> !SuffixAt(text, k)
    requires var n := PlaceholderColor(lib, pick, text[i + 1..|text| - 1], Core.TransparentColor);
      n.Returned? && n.value.1
    ensures var r := PlaceholderTextColor(lib, pick, text, bg, dimStr);
      && r.Returned?
      && r.value.1 == PlaceholderColor(lib, pick, text[i + 1..|text| - 1], Core.TransparentColor).value.0
      && r.value.0 == (if TrimSpace(text[..i]) == "" then dimStr else TrimSpace(text[..i]))
  {
    FindSuffixLeftmost(text, i);
    var cname := text[i..];
    assert cname[1..|cname| - 1] == text[i + 1..|text| - 1];
    assert TrimSuffix(text, cname) == text[..i] by {
      assert HasSuffix(text, cname);
    }
    NamedSuffixResolves(lib, pick, text, cname, dimStr);
  }

  lemma NamedSuffixResolves(lib: Core.Library, pick: nat, text: string, cname: string, dimStr: string)
    requires NamesListed(lib) && |cname| >= 3
    requires var n := PlaceholderColor(lib, pick, cname[1..|cname| - 1], Core.TransparentColor);
      n.Returned? && n.value.1
    ensures var rest := TrimSpace(TrimSuffix(text, cname));
      NamedSuffix(lib, pick, text, cname, dimStr) ==
        Some(Returned((if rest == "" then dimStr else rest,
                       PlaceholderColor(lib, pick, cname[1..|cname| - 1], Core.TransparentColor).value.0)))
  {
  }

  /**
   * Without a trailing `<name>` that resolves, the text is kept whole and its colour is
   * black on color.Transparent, else one of the two opaque greys.
   */
  lemma DefaultTextColor(lib: Core.Library, pick: nat, text: string, bg: Color, dimStr: string)
    requires NamesListed(lib)
    requires FindSuffix(text) == ""
      || (var n := FindSuffix(text)[1..|FindSuffix(text)| - 1];
          PlaceholderColor(lib, pick, n, Core.TransparentColor).Returned?
          && !PlaceholderColor(lib, pick, n, Core.TransparentColor).value.1)
    ensures var r := PlaceholderTextColor(lib, pick, text, bg, dimStr);
      && r.Returned? && r.value.0 == text
      && (bg == Transparent ==> r.value.1 == Black)
      && (bg != Transparent ==> r.value.1 in {RGBA(18, 18, 18, 255), RGBA(250, 250, 250, 255)})
  {
    var cname := FindSuffix(text);
    if cname != "" {
      var j :| 0 <= j < |text| && SuffixAt(text, j) && cname == text[j..];
      assert |cname| >= 3;
    }
  }

  // ---------------------------------------------------------------------------
  // File names

  /** No space and no byte the normaliser deletes. */
  predicate Clean(s: string) {
    forall k :: 0 <= k < |s| ==> s[k] != ' ' && !Deleted(s[k])
  }

  /** The bytes filenameNormalizer deletes. */
  predicate Deleted(c: char) {
    c == '?' || c == '\\' || c == ':' || c == '/' || c == '<' || c == '>' || c == '%' || c == '*' || c == '"'
  }

  /** `filenameNormalizer.Replace(s)`: space becomes `-`, the bytes ?\:/<>%*" are deleted. */
  function Normalize(s: string): (r: string)
    ensures |r| <= |s| && Clean(r)
  {
    if s == [] then []
    else
      var head := if s[0] == ' ' then "-" else if Deleted(s[0]) then "" else [s[0]];
      head + Normalize(s[1..])
  }

  /** The normaliser works byte by byte: the result for a concatenation is the concatenation of the results. */
  lemma {:induction false} NormalizeConcat(a: string, b: string)
    ensures Normalize(a + b) == Normalize(a) + Normalize(b)
  {
    if a != [] {
      assert (a + b)[0] == a[0];
      assert (a + b)[1..] == a[1..] + b;
      NormalizeConcat(a[1..], b);
    } else {
      assert a + b == b;
    }
  }

  /** One byte: a space becomes `-`, a byte of ?\:/<>%*" is deleted, any other byte is kept. */
  lemma NormalizeByte(c: char)
    ensures c == ' ' ==> Normalize([c]) == "-"
    ensures Deleted(c) ==> Normalize([c]) == ""
    ensures c != ' ' && !Deleted(c) ==> Normalize([c]) == [c]
  {
    assert [c][1..] == [];
  }

  /** A name is left as it is exactly when it has no space and no deleted byte. */
  lemma {:induction false} NormalizeFixesOnlyClean(s: string)
    ensures Normalize(s) == s <==> Clean(s)
  {
    if s != [] {
      NormalizeFixesOnlyClean(s[1..]);
      if !(s[0] == ' ' || Deleted(s[0])) {
        assert Normalize(s) == [s[0]] + Normalize(s[1..]);
        assert forall k :: 1 <= k < |s| ==> s[k] == s[1..][k - 1];
      }
    }
  }

  /** Normalising twice is normalising once. */
  lemma NormalizeIdempotent(s: string)
    ensures Normalize(Normalize(s)) == Normalize(s)
  {
    NormalizeFixesOnlyClean(Normalize(s));
  }

  /** The text to draw: "" becomes dimStr, "<none>" becomes "". */
  function PlaceholderText(placeholder: string, dimStr: string): (t: string)
    ensures placeholder == "" && dimStr != "<none>" ==> t == dimStr
    ensures placeholder == "<none>" ==> t == ""
    ensures placeholder != "" && placeholder != "<none>" ==> t == placeholder
  {
    var p := if placeholder == "" then dimStr else placeholder;
    if p == "<none>" then "" else p
  }

  /** The bare output name `<W>x<H>pc<padding>.png`. */
  function BaseName(dimStr: string, padding: nat): string {
    dimStr + "pc" + NatToString(padding) + ".png"
  }

  /** The output file name: the bare name, prefixed by the normalised text and `.`. */
  function OutputName(text: string, dimStr: string, padding: nat): (name: string)
    ensures HasSuffix(name, BaseName(dimStr, padding))
    ensures name == (if text != "" && text != dimStr then Normalize(text) + "." else "") + BaseName(dimStr, padding)
  {
    var base := BaseName(dimStr, padding);
    if text != "" && text != dimStr then
      var tag := Normalize(text) + ".";
      assert (tag + base)[|tag|..] == base;
      tag + base
    else base
  }

  /**
   * For a valid size, the output name carries no space or deleted byte, and it is the bare
   * name exactly when the text is empty or equal to the dimension string.
   */
  lemma OutputNameClean(w: int, h: int, text: string, padding: nat)
    requires 1 <= w && 1 <= h
    ensures Clean(OutputName(text, DimString(w, h), padding))
    ensures text == "" || text == DimString(w, h) <==>
      OutputName(text, DimString(w, h), padding) == BaseName(DimString(w, h), padding)
  {
    BaseNameClean(w, h, padding);
    var dim, base := DimString(w, h), BaseName(DimString(w, h), padding);
    if text != "" && text != dim {
      var tag := Normalize(text) + ".";
      CleanConcat(Normalize(text), ".");
      CleanConcat(tag, base);
      assert OutputName(text, dim, padding) == tag + base;
      assert |tag + base| > |base|;
    }
  }

  lemma CleanConcat(a: string, b: string)
    requires Clean(a) && Clean(b)
    ensures Clean(a + b)
  {
    forall k | 0 <= k < |a + b| ensures (a + b)[k] != ' ' && !Deleted((a + b)[k]) {
      if k >= |a| {
        assert (a + b)[k] == b[k - |a|];
      }
    }
  }

  /** The bare output name of a valid size has no space and no byte the normaliser deletes. */
  lemma BaseNameClean(w: int, h: int, padding: nat)
    requires 1 <= w && 1 <= h
    ensures Clean(BaseName(DimString(w, h), padding))
  {
    var ws, hs, ps := NatToString(w), NatToString(h), NatToString(padding);
    DigitsClean(ws);
    DigitsClean(hs);
    DigitsClean(ps);
    assert Clean("x") && Clean("pc") && Clean(".png");
    CleanConcat(ws, "x");
    CleanConcat(ws + "x", hs);
    CleanConcat(ws + "x" + hs, "pc");
    CleanConcat(ws + "x" + hs + "pc", ps);
    CleanConcat(ws + "x" + hs + "pc" + ps, ".png");
  }

  lemma DigitsClean(s: string)
    requires AllDigits(s)
    ensures Clean(s)
  {
  }
}
