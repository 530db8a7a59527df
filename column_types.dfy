/**
 * The closed set of column type tags (`COLUMN_TYPE`), the text/enum classifier
 * of a cell (`cellTypeIsTextOrEnum`) and the default pixel width of a column
 * type (`getDefaultTypeWidth`).
 */
module ColumnTypes {
  import opened Wrappers

  /** The ten members of `COLUMN_TYPE`. */
  datatype ColumnType =
    | Text | Number | Boolean | Date | Time | Timespan | Checkbox | Status | Enum | Currency

  /**
   * The string each member of `COLUMN_TYPE` stands for. The ten strings are
   * distinct, so each tag names exactly its own member.
   */
  function Tag(c: ColumnType): (s: string)
    ensures Parse(s) == Some(c)
  {
    match c
    case Text => "text"
    case Number => "number"
    case Boolean => "boolean"
    case Date => "date"
    case Time => "time"
    case Timespan => "timespan"
    case Checkbox => "checkbox"
    case Status => "status"
    case Enum => "enum"
    case Currency => "currency"
  }

  /** The member of `COLUMN_TYPE` whose tag is `s`, if there is one. */
  function Parse(s: string): Option<ColumnType>
  {
    if s == "text" then Some(Text)
    else if s == "number" then Some(Number)
    else if s == "boolean" then Some(Boolean)
    else if s == "date" then Some(Date)
    else if s == "time" then Some(Time)
    else if s == "timespan" then Some(Timespan)
    else if s == "checkbox" then Some(Checkbox)
    else if s == "status" then Some(Status)
    else if s == "enum" then Some(Enum)
    else if s == "currency" then Some(Currency)
    else None
  }

  /** `Parse` inverts `Tag`: a string names a member exactly when it is that member's tag. */
  lemma ParseInvertsTag(s: string)
    ensures Parse(s).Some? ==> Tag(Parse(s).value) == s
    ensures Parse(s).None? ==> forall c :: Tag(c) != s
  {
  }

  /**
   * `cellTypeIsTextOrEnum`: `cellType` is the cell's `cell-type` attribute,
   * `None` when the cell has no such attribute. True exactly when the
   * attribute names the `text` or the `enum` column type.
   */
  function CellTypeIsTextOrEnum(cellType: Option<string>): (b: bool)
    ensures b <==> cellType.Some? && (Parse(cellType.value) == Some(Text) || Parse(cellType.value) == Some(Enum))
  {
    cellType == Some(Tag(Text)) || cellType == Some(Tag(Enum))
  }

  /** Over the ten tags, only `text` and `enum` are accepted; a missing attribute is not. */
  lemma CellTypeIsTextOrEnumOnTags()
    ensures forall c :: CellTypeIsTextOrEnum(Some(Tag(c))) <==> c == Text || c == Enum
    ensures !CellTypeIsTextOrEnum(None)
    ensures forall s :: Parse(s).None? ==> !CellTypeIsTextOrEnum(Some(s))
  {
  }

  /**
   * `getDefaultTypeWidth`: the default width in pixels of a column whose type
   * is `columnType` (`None` when the column has no type). Unknown and missing
   * types fall through to 44; no type yields a width that is not positive.
   */
  function DefaultTypeWidth(columnType: Option<string>): (w: int)
    ensures w > 0
    ensures w in {20, 44, 80, 90, 130}
  {
    if columnType == Some(Tag(Time)) || columnType == Some(Tag(Timespan)) then 80
    else if columnType == Some(Tag(Number)) || columnType == Some(Tag(Currency)) then 90
    else if columnType == Some(Tag(Date)) then 130
    else if columnType == Some(Tag(Checkbox)) then 80
    else if columnType == Some(Tag(Status)) then 20
    else 44
  }

  /**
   * The width table read backwards: which column types get each of the five
   * widths. Everything outside the seven listed tags, including a missing
   * type and the tags `text`, `boolean` and `enum`, gets 44.
   */
  lemma DefaultTypeWidthTable(columnType: Option<string>)
    ensures var p := if columnType.Some? then Parse(columnType.value) else None;
      && (DefaultTypeWidth(columnType) == 80 <==> p == Some(Time) || p == Some(Timespan) || p == Some(Checkbox))
      && (DefaultTypeWidth(columnType) == 90 <==> p == Some(Number) || p == Some(Currency))
      && (DefaultTypeWidth(columnType) == 130 <==> p == Some(Date))
      && (DefaultTypeWidth(columnType) == 20 <==> p == Some(Status))
      && (DefaultTypeWidth(columnType) == 44 <==> p !in {Some(Time), Some(Timespan), Some(Checkbox), Some(Number), Some(Currency), Some(Date), Some(Status)})
  {
    if columnType.Some? {
      var p := Parse(columnType.value);
    }
  }
}
