/** The column layout of the favourites list and the value each row shows in
    each column (thunar/thunar-favourites-model.c:302-336, 393-439). */
module Columns {
  import opened Base

  /** The displayed content of one favourite: the file it refers to (none for
      a separator row) and its fixed label ("Home", "Filesystem") if any. */
  datatype Entry = Entry(file: Option<File>, specialName: Option<string>)

  /** The row drawn as a divider between the special roots and the bookmarks. */
  const Separator: Entry := Entry(None, None)

  /** Column numbers of the model. */
  const ColumnName: Gint := 0
  const ColumnIcon: Gint := 1
  const ColumnSeparator: Gint := 2
  const NColumns: Gint := 3

  /** Pixel size at which row icons are requested from the file layer. */
  const IconSize: int := 32

  /** The flags the model reports to the view. */
  datatype TreeModelFlags = TreeModelFlags(itersPersist: bool, listOnly: bool)

  /** The value types a column can have. */
  datatype ColumnType = TypeString | TypePixbuf | TypeBoolean

  /** A cell value, tagged with its type. */
  datatype Value =
    | StringValue(text: Option<string>)
    | PixbufValue(icon: Option<Pixbuf>)
    | BooleanValue(flag: bool)

  function TypeOf(v: Value): ColumnType
  {
    match v
    case StringValue(_) => TypeString
    case PixbufValue(_) => TypePixbuf
    case BooleanValue(_) => TypeBoolean
  }

  /** get_flags: iterators stay valid while their row exists, and the model is
      a flat list. */
  function GetFlags(): (r: TreeModelFlags)
    ensures r.itersPersist && r.listOnly
  {
    TreeModelFlags(true, true)
  }

  /** get_n_columns: the name, icon and separator columns, numbered from 0
      without gaps. */
  function GetNColumns(): (r: Gint)
    ensures r == 3
    ensures ColumnName < r && ColumnIcon < r && ColumnSeparator < r
  {
    NColumns
  }

  /** get_column_type. Any other column number is a programming error that
      the source stops with an assertion, so callers must not pass one. */
  function GetColumnType(column: Gint): (r: ColumnType)
    requires 0 <= column < NColumns
    ensures column == ColumnName <==> r == TypeString
    ensures column == ColumnIcon <==> r == TypePixbuf
    ensures column == ColumnSeparator <==> r == TypeBoolean
  {
    if column == ColumnName then TypeString
    else if column == ColumnIcon then TypePixbuf
    else TypeBoolean
  }

  /** get_value for one row. `displayName` and `loadIcon` stand for the file
      layer's display-name lookup and icon loader; the column number must be
      in range (the source asserts it). */
  function ValueOf(e: Entry, column: Gint, displayName: File -> string,
                    loadIcon: (File, int) -> Option<Pixbuf>): (r: Value)
    requires 0 <= column < NColumns
    ensures TypeOf(r) == GetColumnType(column)
    ensures column == ColumnName ==>
      r.text == (if e.specialName.Some? then e.specialName
                 else if e.file.Some? then Some(displayName(e.file.value))
                 else None)
    ensures column == ColumnIcon ==>
      r.icon == (if e.file.Some? then loadIcon(e.file.value, IconSize) else None)
    ensures column == ColumnSeparator ==> (r.flag <==> e.file.None?)
  {
    if column == ColumnName then
      StringValue(
        if e.specialName.Some? then e.specialName
        else if e.file.Some? then Some(displayName(e.file.value))
        else None)
    else if column == ColumnIcon then
      PixbufValue(if e.file.Some? then loadIcon(e.file.value, IconSize) else None)
    else
      BooleanValue(e.file == None)
  }
}
