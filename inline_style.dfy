/**
 * `inlineStyle`: fills in a column's missing width with the default width of
 * its type, derives the column's minimum/maximum width style from it and,
 * when given an element, writes that style onto the element.
 */
module InlineStyle {
  import opened Wrappers
  import ColumnTypes

  /**
   * The value of a column configuration's `width` attribute: `undefined`,
   * `null`, a number, or a string such as `"auto"` or `"120"`.
   */
  datatype Width = Undefined | Null | Num(n: int) | Str(s: string)

  /** JavaScript falsiness, restricted to the values a `Width` can take. */
  predicate Falsy(w: Width)
  {
    w == Undefined || w == Null || w == Num(0) || w == Str("")
  }

  /** The widths `inlineStyle` replaces with the type's default: falsy ones and `"auto"`. */
  predicate NeedsDefault(w: Width)
  {
    Falsy(w) || w == Str("auto")
  }

  /** Loose equality with `null`, which also holds for `undefined`. */
  predicate LooselyNull(w: Width)
  {
    w == Null || w == Undefined
  }

  /** The character of a decimal digit. */
  function DigitChar(d: nat): (c: char)
    requires d < 10
    ensures '0' <= c <= '9' && c as int - '0' as int == d
  {
    "0123456789"[d]
  }

  predicate AllDigits(s: string)
  {
    forall i :: 0 <= i < |s| ==> '0' <= s[i] <= '9'
  }

  /** The number a string of decimal digits denotes. */
  function DigitsValue(s: string): nat
    requires AllDigits(s)
  {
    if s == [] then 0 else DigitsValue(s[..|s| - 1]) * 10 + (s[|s| - 1] as int - '0' as int)
  }

  /**
   * The decimal text JavaScript gives a non-negative integer: at least one
   * digit and no leading zero.
   */
  function NatText(n: nat): (s: string)
    ensures |s| >= 1 && AllDigits(s)
    ensures s[0] == '0' <==> n == 0
    decreases n
  {
    if n < 10 then [DigitChar(n)] else NatText(n / 10) + [DigitChar(n % 10)]
  }

  /** Reading the decimal text of `n` gives back `n`. */
  lemma {:induction false} NatTextRoundTrip(n: nat)
    ensures DigitsValue(NatText(n)) == n
    decreases n
  {
    if n >= 10 {
      NatTextRoundTrip(n / 10);
      var s := NatText(n);
      assert s[..|s| - 1] == NatText(n / 10);
    }
  }

  /** A digit string without a leading zero is the decimal text of its value. */
  lemma {:induction false} CanonicalDigitsRoundTrip(s: string)
    requires |s| >= 1 && AllDigits(s)
    requires s[0] == '0' ==> |s| == 1
    ensures NatText(DigitsValue(s)) == s
    decreases |s|
  {
    var n := DigitsValue(s);
    var d := s[|s| - 1] as int - '0' as int;
    if |s| == 1 {
      assert DigitsValue(s[..0]) == 0;
      assert n == d;
      assert NatText(n) == [DigitChar(n)];
    } else {
      var init := s[..|s| - 1];
      CanonicalDigitsRoundTrip(init);
      LeadingDigitBound(init);
      assert n / 10 == DigitsValue(init) && n % 10 == d;
      assert NatText(n) == NatText(DigitsValue(init)) + [DigitChar(d)];
    }
  }

  /** A digit string whose first digit is not zero denotes a positive number. */
  lemma {:induction false} LeadingDigitBound(s: string)
    requires |s| >= 1 && AllDigits(s) && s[0] != '0'
    ensures DigitsValue(s) >= 1
    decreases |s|
  {
    if |s| > 1 {
      LeadingDigitBound(s[..|s| - 1]);
    }
  }

  /**
   * The decimal reading of an integer's text: a minus sign exactly for a
   * negative number, then digits that read back as its magnitude.
   */
  ghost predicate ReadsAsInt(text: string, n: int)
  {
    if n >= 0 then AllDigits(text) && DigitsValue(text) == n
    else |text| >= 2 && text[0] == '-' && AllDigits(text[1..]) && DigitsValue(text[1..]) == -n
  }

  /** The text JavaScript gives an integer: its sign, then its magnitude's digits. */
  function IntText(n: int): (r: string)
    ensures ReadsAsInt(r, n)
  {
    NatTextRoundTrip(if n < 0 then -n else n);
    if n < 0 then
      assert ("-" + NatText(-n))[1..] == NatText(-n);
      "-" + NatText(-n)
    else
      NatText(n)
  }

  /**
   * The string a template literal `${w}` produces for each kind of width; a
   * number's text reads back as the number.
   */
  function WidthText(w: Width): (r: string)
    ensures w.Num? ==> ReadsAsInt(r, w.n)
  {
    match w
    case Undefined => "undefined"
    case Null => "null"
    case Num(n) => IntText(n)
    case Str(s) => s
  }

  /** The CSS length `${w}px`: the width's text, then the unit. */
  function Px(w: Width): (r: string)
    ensures |r| >= 2 && r[|r| - 2..] == "px"
  {
    WidthText(w) + "px"
  }

  /**
   * What the CSS length of a numeric width means: before the unit stands a
   * text that reads back as the number, a minus sign included exactly when
   * it is negative.
   */
  lemma PxReadsBack(w: Width)
    requires w.Num?
    ensures var r := Px(w); |r| >= 3 && ReadsAsInt(r[..|r| - 2], w.n)
  {
    var r := Px(w);
    assert r[..|r| - 2] == WidthText(w);
  }

  /** The returned style object; `None` is an absent property. */
  datatype Style = Style(minWidth: Option<string>, maxWidth: Option<string>)

  /**
   * The width `inlineStyle` leaves in the configuration: the default width of
   * the column type when the width is falsy or `"auto"`, the width itself
   * otherwise.
   */
  function ResolvedWidth(w: Width, columnType: Option<string>): (r: Width)
    ensures r == w <==> !NeedsDefault(w)
    ensures !NeedsDefault(r) && !LooselyNull(r)
    ensures NeedsDefault(w) ==> r.Num? && r.n > 0
  {
    if NeedsDefault(w) then Num(ColumnTypes.DefaultTypeWidth(columnType)) else w
  }

  /** A second `inlineStyle` call leaves the width as the first one left it. */
  lemma ResolvedWidthIdempotent(w: Width, columnType: Option<string>)
    ensures ResolvedWidth(ResolvedWidth(w, columnType), columnType) == ResolvedWidth(w, columnType)
  {
  }

  /**
   * The style `inlineStyle` derives from a width, branch for branch: empty
   * for a width loosely equal to `null`, a minimum only for a scaled column,
   * and equal minimum and maximum otherwise.
   */
  function StyleFor(w: Width, scaled: bool): (st: Style)
    ensures st.minWidth.None? <==> LooselyNull(w)
    ensures st.minWidth.Some? ==> st.minWidth.value == Px(w)
    ensures st.maxWidth.Some? <==> !LooselyNull(w) && !scaled
    ensures st.maxWidth.Some? ==> st.maxWidth == st.minWidth
  {
    if LooselyNull(w) then Style(None, None)
    else if scaled then Style(Some(Px(w)), None)
    else Style(Some(Px(w)), Some(Px(w)))
  }

  /**
   * After the width is resolved the empty style cannot occur: every call
   * yields a minimum width, and a maximum equal to it exactly when the column
   * is not scaled.
   */
  lemma ResolvedStyleNeverEmpty(w: Width, columnType: Option<string>, scaled: bool)
    ensures var r := ResolvedWidth(w, columnType);
      && StyleFor(r, scaled).minWidth == Some(Px(r))
      && (StyleFor(r, scaled).maxWidth == if scaled then None else Some(Px(r)))
  {
  }

  /** A `null` width gets the type's default width, not an empty style. */
  lemma NullWidthGetsDefault(columnType: Option<string>, scaled: bool)
    ensures ResolvedWidth(Null, columnType) == Num(ColumnTypes.DefaultTypeWidth(columnType))
    ensures StyleFor(ResolvedWidth(Null, columnType), scaled) != Style(None, None)
  {
  }

  /** The element's inline style surface (`el.style`), reduced to the two properties written. */
  class StyleSurface {
    var minWidth: Option<string>
    var maxWidth: Option<string>

    constructor (minWidth: Option<string>, maxWidth: Option<string>)
      ensures this.minWidth == minWidth && this.maxWidth == maxWidth
    {
      this.minWidth := minWidth;
      this.maxWidth := maxWidth;
    }
  }

  /** A column configuration, the receiver (`this`) of `inlineStyle`. */
  class ColumnConfig {
    var width: Width
    var columnType: Option<string>
    var scaled: bool

    constructor (width: Width, columnType: Option<string>, scaled: bool)
      ensures this.width == width && this.columnType == columnType && this.scaled == scaled
    {
      this.width := width;
      this.columnType := columnType;
      this.scaled := scaled;
    }

    /**
     * `inlineStyle(el)`; `el` is `null` when no element is passed. Only the
     * width of the configuration and, when there is an element, its two
     * style properties change.
     */
    method InlineStyle(el: StyleSurface?) returns (style: Style)
      modifies this`width, el
      ensures width == ResolvedWidth(old(width), columnType)
      ensures style == StyleFor(width, scaled)
      ensures style.minWidth == Some(Px(width))
      ensures style.maxWidth == if scaled then None else style.minWidth
      ensures el != null ==> el.minWidth == style.minWidth && el.maxWidth == style.maxWidth
    {
      if Falsy(width) || width == Str("auto") {
        width := Num(ColumnTypes.DefaultTypeWidth(columnType));
      }

      if width == Null || width == Undefined {
        style := Style(None, None);
      } else {
        var px := Px(width);
        style := if scaled then Style(Some(px), None) else Style(Some(px), Some(px));
      }

      if el != null {
        el.minWidth := style.minWidth;
        el.maxWidth := style.maxWidth;
      }
    }
  }

  /** The CSS length of a width of 20 pixels. */
  lemma PxOf20()
    ensures Px(Num(20)) == "20px"
  {
    assert NatText(2) == "2";
    assert NatText(20) == "20";
  }

  /** The CSS length of a width of 100 pixels. */
  lemma PxOf100()
    ensures Px(Num(100)) == "100px"
  {
    assert NatText(1) == "1";
    assert NatText(10) == "10";
    assert NatText(100) == "100";
  }

  /** A `status` column without a width gets 20 pixels, as both minimum and maximum. */
  lemma StatusColumnExample()
    ensures ResolvedWidth(Undefined, Some("status")) == Num(20)
    ensures StyleFor(Num(20), false) == Style(Some("20px"), Some("20px"))
  {
    assert ColumnTypes.Tag(ColumnTypes.Status) == "status";
    PxOf20();
  }

  /** A scaled column 100 pixels wide gets only a minimum width. */
  lemma ScaledColumnExample(columnType: Option<string>)
    ensures ResolvedWidth(Num(100), columnType) == Num(100)
    ensures StyleFor(Num(100), true) == Style(Some("100px"), None)
  {
    PxOf100();
  }
}
