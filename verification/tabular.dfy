/** The `tabular` field type: an editable grid in the admin panel, the stored
    `{titles, data}` record built from a form submission, and the public table
    rendered from that record.

    Template attributes arrive already read: `rows` is the integer PHP's
    `intval(trim(...))` produced, `cols` is the raw comma-separated attribute,
    and the public-rendering limits and `noheaders` flag are plain values. */
module Tabular {
  import opened Text
  import Decimal

  /** A template attribute as the host hands it over. The host answers
      `false` both for a missing attribute and for one written as "false";
      `Absent` stands for that answer, `Present` for any other text. */
  datatype Attribute = Absent | Present(text: string)

  /** The persisted value of a field: trimmed column titles and row-major cells. */
  datatype StoredTable = StoredTable(titles: seq<string>, data: seq<seq<string>>)

  /** One text input of the admin grid: its element id and pre-filled value. */
  datatype Input = Input(name: string, value: string)

  /** What the admin panel shows for the field: the configuration notice, or
      the grid with one header cell per column and one row of inputs per row. */
  datatype AdminView =
    | ErrorNotice(rows: int, cols: int)
    | InputGrid(tableId: string, headers: seq<string>, body: seq<seq<Input>>)

  /** What the public page gets: a full table, or (with `noheaders`) only the
      body, meant to be placed inside markup of the template's own. */
  datatype PublicView =
    | Wrapped(headers: seq<string>, body: seq<seq<string>>)
    | BodyOnly(body: seq<seq<string>>)

  function Max0(n: int): nat {
    if n > 0 then n else 0
  }

  // ---------------------------------------------------------------------
  // Cell identifiers

  /** The id of cell (row, col) of the table with base id `id`,
      `sprintf('%s_row%d_%d', id, row, col)`. */
  function CellId(id: string, row: int, col: int): (s: string)
    ensures |s| >= |id| + 7 && id + "_row" <= s
  {
    id + "_row" + Decimal.Format(row) + "_" + Decimal.Format(col)
  }

  /** If two strings without an underscore are each followed by an underscore
      and some tail, and the results agree, the heads and tails agree. */
  lemma SplitAtUnderscore(a: string, b: string, a': string, b': string)
    requires '_' !in a && '_' !in a'
    requires a + "_" + b == a' + "_" + b'
    ensures a == a' && b == b'
  {
    var s := a + "_" + b;
    assert s[|a|] == '_' && s[..|a|] == a;
    assert s[|a'|] == '_' && s[..|a'|] == a';
    assert IndexOf(s, '_') == |a| == |a'|;
    assert a == s[..|a|] == a';
    assert b == s[|a| + 1..] == b';
  }

  /** For a fixed base id, distinct (row, col) pairs give distinct cell ids. */
  lemma CellIdInjective(id: string, r1: int, c1: int, r2: int, c2: int)
    requires CellId(id, r1, c1) == CellId(id, r2, c2)
    ensures r1 == r2 && c1 == c2
  {
    CellIdTail(id, r1, c1);
    CellIdTail(id, r2, c2);
    FormatHasNoUnderscore(r1);
    FormatHasNoUnderscore(r2);
    SplitAtUnderscore(Decimal.Format(r1), Decimal.Format(c1), Decimal.Format(r2), Decimal.Format(c2));
    Decimal.FormatInjective(r1, r2);
    Decimal.FormatInjective(c1, c2);
  }

  /** After the base id and `_row`, a cell id holds the row, `_`, and the column. */
  lemma CellIdTail(id: string, row: int, col: int)
    ensures CellId(id, row, col)[|id| + 4..] == Decimal.Format(row) + "_" + Decimal.Format(col)
  {
    var p := id + "_row";
    var t := Decimal.Format(row) + "_" + Decimal.Format(col);
    assert CellId(id, row, col) == p + t;
    assert (p + t)[|p|..] == t;
  }

  /** A `%d` text holds no underscore. */
  lemma FormatHasNoUnderscore(n: int)
    ensures '_' !in Decimal.Format(n)
  {
    var f := Decimal.Format(n);
    assert forall k :: 0 <= k < |f| ==> f[k] != '_';
  }

  // ---------------------------------------------------------------------
  // Admin grid (render_inputs)

  /** PHP truthiness of a string attribute: "" and "0" are false. */
  predicate Truthy(s: string) {
    s != "" && s != "0"
  }

  /** The column titles the admin grid is built from: the comma-split
      attribute, or none when the attribute is missing or falsy. */
  function DeclaredTitles(cols: Attribute): (titles: seq<string>)
    ensures |titles| == 0 <==> !(cols.Present? && Truthy(cols.text))
    ensures cols.Present? && Truthy(cols.text) ==> titles == Split(cols.text)
  {
    if cols.Present? && Truthy(cols.text) then Split(cols.text) else []
  }

  /** The value an admin input is pre-filled with: the trimmed stored cell
      when both indices are in range, otherwise empty. */
  function StoredValue(data: seq<seq<string>>, row: nat, col: nat): string {
    if row < |data| && col < |data[row]| then Trim(data[row][col]) else ""
  }

  /** `render_inputs`: the configuration notice exactly when the row count or
      the column count is not positive; otherwise a grid whose shape is the
      declared one, whatever the shape of the stored data. */
  function RenderInputs(inputId: string, rows: int, cols: Attribute, data: seq<seq<string>>): (v: AdminView)
    ensures v.ErrorNotice? <==> rows <= 0 || |DeclaredTitles(cols)| == 0
    ensures v.ErrorNotice? ==> v.rows == rows && v.cols == |DeclaredTitles(cols)|
    ensures v.InputGrid? ==>
      && v.tableId == inputId
      && |v.headers| == |DeclaredTitles(cols)|
      && (forall c :: 0 <= c < |v.headers| ==> v.headers[c] == Trim(DeclaredTitles(cols)[c]))
    ensures v.InputGrid? ==>
      && |v.body| == rows
      && (forall r :: 0 <= r < |v.body| ==> |v.body[r]| == |v.headers|)
    ensures v.InputGrid? ==>
      forall r, c :: 0 <= r < |v.body| && 0 <= c < |v.body[r]| ==>
        v.body[r][c] == Input(CellId(inputId, r, c), StoredValue(data, r, c))
  {
    var titles := DeclaredTitles(cols);
    var n := |titles|;
    if rows <= 0 || n <= 0 then ErrorNotice(rows, n)
    else
      InputGrid(inputId, TrimAll(titles),
        seq(rows, r requires 0 <= r < rows =>
          seq(n, c requires 0 <= c < n => Input(CellId(inputId, r, c), StoredValue(data, r, c)))))
  }

  /** Stored data cut down to at most `rows` rows of at most `cols` cells. */
  function Crop(data: seq<seq<string>>, rows: nat, cols: nat): (d: seq<seq<string>>)
    ensures |d| == (if |data| < rows then |data| else rows)
    ensures forall r :: 0 <= r < |d| ==>
      |d[r]| == (if |data[r]| < cols then |data[r]| else cols) && d[r] == data[r][..|d[r]|]
  {
    var n := if |data| < rows then |data| else rows;
    seq(n, r requires 0 <= r < n => if |data[r]| < cols then data[r] else data[r][..cols])
  }

  /** Cropping to at least (row + 1) x (col + 1) keeps the value of cell (row, col). */
  lemma StoredValueCropped(data: seq<seq<string>>, rows: nat, cols: nat, row: nat, col: nat)
    requires row < rows && col < cols
    ensures StoredValue(Crop(data, rows, cols), row, col) == StoredValue(data, row, col)
  {
    var cropped := Crop(data, rows, cols);
    if row < |data| && col < |data[row]| {
      assert cropped[row][col] == data[row][col];
    }
  }

  /** Stored rows and columns beyond the declared shape do not show: the grid
      is the same as for the stored data cropped to that shape. */
  lemma RenderIgnoresSurplus(inputId: string, rows: int, cols: Attribute, data: seq<seq<string>>)
    ensures RenderInputs(inputId, rows, cols, data)
         == RenderInputs(inputId, rows, cols, Crop(data, Max0(rows), |DeclaredTitles(cols)|))
  {
    var n := |DeclaredTitles(cols)|;
    var cropped := Crop(data, Max0(rows), n);
    var v1 := RenderInputs(inputId, rows, cols, data);
    var v2 := RenderInputs(inputId, rows, cols, cropped);
    if v1.InputGrid? {
      forall r | 0 <= r < rows
        ensures v1.body[r] == v2.body[r]
      {
        forall c | 0 <= c < n
          ensures v1.body[r][c] == v2.body[r][c]
        {
          StoredValueCropped(data, rows, n, r, c);
        }
      }
      assert v1.body == v2.body;
    }
  }

  /** No two inputs of a grid share an element id. */
  lemma GridNamesDistinct(inputId: string, rows: int, cols: Attribute, data: seq<seq<string>>,
                          r1: nat, c1: nat, r2: nat, c2: nat)
    requires RenderInputs(inputId, rows, cols, data).InputGrid?
    requires r1 < rows && r2 < rows && c1 < |DeclaredTitles(cols)| && c2 < |DeclaredTitles(cols)|
    requires (r1, c1) != (r2, c2)
    ensures RenderInputs(inputId, rows, cols, data).body[r1][c1].name
         != RenderInputs(inputId, rows, cols, data).body[r2][c2].name
  {
    if CellId(inputId, r1, c1) == CellId(inputId, r2, c2) {
      CellIdInjective(inputId, r1, c1, r2, c2);
    }
  }

  // ---------------------------------------------------------------------
  // Parsing a submission (get_raw)

  /** The stored value of a posted cell: its trimmed text when the key was
      posted with something other than whitespace, otherwise empty. */
  function PostedValue(post: map<string, string>, key: string): (v: string)
    ensures v != "" <==> key in post && Trim(post[key]) != ""
    ensures v != "" ==> v == Trim(post[key])
  {
    if key in post && Trim(post[key]) != "" then Trim(post[key]) else ""
  }

  /** Row `row` of the submission, read through the cell ids of base `id`. */
  function PostedRow(post: map<string, string>, id: string, row: int, cols: nat): (cells: seq<string>)
    ensures |cells| == cols
  {
    seq(cols, c requires 0 <= c < cols => PostedValue(post, CellId(id, row, c)))
  }

  /** The full `rows` x `cols` matrix of the submission, before trimming. */
  function PostedMatrix(post: map<string, string>, id: string, rows: int, cols: nat): (m: seq<seq<string>>)
    ensures |m| == Max0(rows)
    ensures forall r :: 0 <= r < |m| ==> m[r] == PostedRow(post, id, r, cols)
  {
    seq(Max0(rows), r requires 0 <= r < Max0(rows) => PostedRow(post, id, r, cols))
  }

  predicate Blank(row: seq<string>) {
    forall c :: 0 <= c < |row| ==> row[c] == ""
  }

  lemma BlankAppend(row: seq<string>, v: string)
    ensures Blank(row + [v]) <==> Blank(row) && v == ""
  {
    if Blank(row + [v]) {
      assert forall c :: 0 <= c < |row| ==> row[c] == (row + [v])[c];
      assert (row + [v])[|row|] == v;
    }
  }

  /** Drops the all-blank rows at the end and nothing else: the result is a
      prefix, every row cut off is blank, and a non-empty result ends in a row
      with some content. */
  function DropTrailingBlank(m: seq<seq<string>>): (d: seq<seq<string>>)
    ensures |d| <= |m| && d == m[..|d|]
    ensures forall r :: |d| <= r < |m| ==> Blank(m[r])
    ensures |d| > 0 ==> !Blank(d[|d| - 1])
  {
    if |m| == 0 then m
    else if Blank(m[|m| - 1]) then DropTrailingBlank(m[..|m| - 1])
    else m
  }

  /** The three properties of `DropTrailingBlank` pin down its result. */
  lemma DropTrailingBlankUnique(m: seq<seq<string>>, k: nat)
    requires k <= |m|
    requires forall r :: k <= r < |m| ==> Blank(m[r])
    requires k > 0 ==> !Blank(m[k - 1])
    ensures DropTrailingBlank(m) == m[..k]
  {
  }

  /** The rows `get_raw` keeps: the `rows` x `cols` posted matrix, cut
      after its last row holding a non-blank cell. */
  function KeptRows(post: map<string, string>, id: string, rows: int, cols: nat): (d: seq<seq<string>>)
    ensures |d| <= Max0(rows)
    ensures forall r :: 0 <= r < |d| ==> d[r] == PostedRow(post, id, r, cols)
    ensures forall r :: |d| <= r < rows ==> Blank(PostedRow(post, id, r, cols))
    ensures |d| > 0 ==> !Blank(d[|d| - 1])
  {
    var m := PostedMatrix(post, id, rows, cols);
    var d := DropTrailingBlank(m);
    assert forall r :: 0 <= r < |d| ==> d[r] == m[r];
    assert forall r :: |d| <= r < |m| ==> Blank(m[r]) && m[r] == PostedRow(post, id, r, cols);
    d
  }

  /** `get_raw` as a value: the trimmed titles of the comma-split attribute,
      and the posted matrix with its trailing blank rows dropped. */
  function ParseSubmission(id: string, rows: int, colsText: string, post: map<string, string>): (t: StoredTable)
    ensures |t.titles| == |Split(colsText)|
    ensures forall i :: 0 <= i < |t.titles| ==> t.titles[i] == Trim(Split(colsText)[i])
    ensures |t.data| <= Max0(rows)
    ensures forall r :: 0 <= r < |t.data| ==> |t.data[r]| == |t.titles|
    ensures forall r, c :: 0 <= r < |t.data| && 0 <= c < |t.titles| ==>
              t.data[r][c] == PostedValue(post, CellId(id, r, c))
    ensures forall r :: |t.data| <= r < rows ==> Blank(PostedRow(post, id, r, |t.titles|))
    ensures |t.data| > 0 ==> !Blank(t.data[|t.data| - 1])
  {
    var parts := Split(colsText);
    StoredTable(TrimAll(parts), KeptRows(post, id, rows, |parts|))
  }

  /** The matrix of one more row is the old matrix with that row appended. */
  lemma PostedMatrixSnoc(post: map<string, string>, id: string, n: nat, cols: nat)
    ensures PostedMatrix(post, id, n + 1, cols) == PostedMatrix(post, id, n, cols) + [PostedRow(post, id, n, cols)]
  {
    var m := PostedMatrix(post, id, n, cols);
    var m' := PostedMatrix(post, id, n + 1, cols);
    assert forall r :: 0 <= r < n ==> m'[r] == m[r];
  }

  /** The inner loop of `get_raw` for one row: reads the row's cells from the
      submission and reports whether any of them was non-blank, which is when
      the PHP code moves its last-populated-row mark to this row. */
  method ReadRow(post: map<string, string>, id: string, row: int, cols: nat)
    returns (rowdata: seq<string>, populated: bool)
    ensures rowdata == PostedRow(post, id, row, cols)
    ensures populated <==> !Blank(rowdata)
  {
    ghost var full := PostedRow(post, id, row, cols);
    rowdata := [];
    populated := false;
    var col := 0;
    while col < cols
      invariant 0 <= col <= cols
      invariant rowdata == full[..col]
      invariant populated <==> !Blank(rowdata)
    {
      var val := PostedValue(post, CellId(id, row, col));
      assert val == full[col];
      if val != "" {
        populated := true;
      }
      BlankAppend(rowdata, val);
      rowdata := rowdata + [val];
      assert full[..col + 1] == full[..col] + [full[col]];
      col := col + 1;
    }
    assert full[..cols] == full;
  }

  /** The title loop of `get_raw`: every comma-separated part, trimmed. */
  method TrimTitles(parts: seq<string>) returns (titles: seq<string>)
    ensures titles == TrimAll(parts)
  {
    titles := [];
    var i := 0;
    while i < |parts|
      invariant 0 <= i <= |parts|
      invariant |titles| == i
      invariant forall k :: 0 <= k < i ==> titles[k] == Trim(parts[k])
    {
      titles := titles + [Trim(parts[i])];
      i := i + 1;
    }
  }

  /** The row loop of `get_raw`: reads every declared row and remembers the
      last one holding a non-blank cell (-1 when there is none). */
  method ReadRows(post: map<string, string>, id: string, rows: int, cols: nat)
    returns (data: seq<seq<string>>, last: int)
    ensures data == PostedMatrix(post, id, rows, cols)
    ensures -1 <= last < |data|
    ensures last >= 0 ==> !Blank(data[last])
    ensures forall r :: last < r < |data| ==> Blank(data[r])
  {
    data := [];
    last := -1;
    var row := 0;
    while row < rows
      invariant 0 <= row <= Max0(rows)
      invariant data == PostedMatrix(post, id, row, cols)
      invariant -1 <= last < row
      invariant last >= 0 ==> !Blank(data[last])
      invariant forall r :: last < r < row ==> Blank(data[r])
    {
      var rowdata, populated := ReadRow(post, id, row, cols);
      if populated {
        last := row;
      }
      PostedMatrixSnoc(post, id, row, cols);
      data := data + [rowdata];
      row := row + 1;
    }
  }

  /** `get_raw`: the trimmed titles, then the rows read by the row loop, cut
      after the last populated row. */
  method GetRaw(id: string, rows: int, colsText: string, post: map<string, string>) returns (t: StoredTable)
    ensures t.titles == TrimAll(Split(colsText))
    ensures t.data == KeptRows(post, id, rows, |Split(colsText)|)
  {
    var parts := Split(colsText);
    var titles := TrimTitles(parts);
    var cols := |parts|;
    var data, last := ReadRows(post, id, rows, cols);
    KeptRowsCut(post, id, rows, cols, last + 1);
    if last + 1 < rows {
      data := data[..last + 1];
    } else {
      assert data == data[..last + 1];
    }
    t := StoredTable(titles, data);
  }

  /** A cut point after which every posted row is blank, and just before which
      the row is not, is where `get_raw` cuts. */
  lemma KeptRowsCut(post: map<string, string>, id: string, rows: int, cols: nat, k: nat)
    requires k <= Max0(rows)
    requires forall r :: k <= r < Max0(rows) ==> Blank(PostedMatrix(post, id, rows, cols)[r])
    requires k > 0 ==> !Blank(PostedMatrix(post, id, rows, cols)[k - 1])
    ensures KeptRows(post, id, rows, cols) == PostedMatrix(post, id, rows, cols)[..k]
  {
    DropTrailingBlankUnique(PostedMatrix(post, id, rows, cols), k);
  }

  // ---------------------------------------------------------------------
  // Public rendering (get_processed)

  /** A display limit applied to a stored size: a positive limit caps the
      size, anything else leaves it as it is; never more than is stored. */
  function Limit(count: nat, limit: int): (n: nat)
    ensures n <= count
    ensures limit <= 0 ==> n == count
    ensures limit > 0 ==> n <= limit && (n == count || n == limit)
  {
    if limit > 0 && limit < count then limit else count
  }

  /** What `get_processed` needs of a record: every displayed row has a cell
      for every displayed column. */
  predicate Renderable(raw: StoredTable, limitRows: int, limitCols: int) {
    forall r :: 0 <= r < Limit(|raw.data|, limitRows) ==> Limit(|raw.titles|, limitCols) <= |raw.data[r]|
  }

  /** `get_processed`: the top-left `Limit(rows) x Limit(cols)` part of the
      record, with the titles as headers unless `noheaders` is set. */
  function GetProcessed(raw: StoredTable, limitRows: int, limitCols: int, noHeaders: bool): (v: PublicView)
    requires Renderable(raw, limitRows, limitCols)
    ensures v.BodyOnly? <==> noHeaders
    ensures v.Wrapped? ==> v.headers == raw.titles[..Limit(|raw.titles|, limitCols)]
    ensures |v.body| == Limit(|raw.data|, limitRows)
    ensures forall r :: 0 <= r < |v.body| ==> |v.body[r]| == Limit(|raw.titles|, limitCols)
    ensures forall r, c :: 0 <= r < |v.body| && 0 <= c < |v.body[r]| ==> v.body[r][c] == raw.data[r][c]
  {
    var rows := Limit(|raw.data|, limitRows);
    var cols := Limit(|raw.titles|, limitCols);
    var body := seq(rows, r requires 0 <= r < rows && Renderable(raw, limitRows, limitCols) => raw.data[r][..cols]);
    if noHeaders then BodyOnly(body) else Wrapped(raw.titles[..cols], body)
  }

  function Cells(tag: string, cells: seq<string>): string {
    if |cells| == 0 then "" else Cells(tag, cells[..|cells| - 1]) + "<" + tag + ">" + cells[|cells| - 1] + "</" + tag + ">"
  }

  function Rows(body: seq<seq<string>>): string {
    if |body| == 0 then "" else Rows(body[..|body| - 1]) + "<tr>" + Cells("td", body[|body| - 1]) + "</tr>"
  }

  /** The markup `get_processed` emits for a view: the body always sits in
      `<tbody>`; the table and header wrapper appear only in a wrapped view. */
  function PublicMarkup(v: PublicView): (s: string)
    ensures v.BodyOnly? ==> |s| >= 15 && s[..7] == "<tbody>" && s[|s| - 8..] == "</tbody>"
    ensures v.Wrapped? ==> |s| >= 34 && s[..18] == "<table><thead><tr>" && s[|s| - 16..] == "</tbody></table>"
  {
    match v
    case BodyOnly(body) =>
      Enclosed("<tbody>", Rows(body), "</tbody>");
      "<tbody>" + Rows(body) + "</tbody>"
    case Wrapped(headers, body) =>
      // `<table><thead><tr>` headers `</tr></thead>` + `<tbody>` rows `</tbody>` + `</table>`
      var inner := Cells("th", headers) + "</tr></thead><tbody>" + Rows(body);
      Enclosed("<table><thead><tr>", inner, "</tbody></table>");
      "<table><thead><tr>" + inner + "</tbody></table>"
  }

  /** A string built as `open + inner + close` starts with `open` and ends with `close`. */
  lemma Enclosed(open: string, inner: string, close: string)
    ensures var s := open + inner + close;
      |s| == |open| + |inner| + |close| && s[..|open|] == open && s[|s| - |close|..] == close
  {
  }

  /** Whatever the record and the limits, a record `get_raw` built can be
      rendered: all its rows have one cell per title. */
  lemma ParsedIsRenderable(id: string, rows: int, colsText: string, post: map<string, string>,
                           limitRows: int, limitCols: int)
    ensures Renderable(ParseSubmission(id, rows, colsText, post), limitRows, limitCols)
  {
  }

  /** Without limits, a record whose rows match its titles is shown whole. */
  lemma NoLimitShowsAll(raw: StoredTable, noHeaders: bool)
    requires forall r :: 0 <= r < |raw.data| ==> |raw.data[r]| == |raw.titles|
    ensures Renderable(raw, 0, 0)
    ensures GetProcessed(raw, 0, 0, noHeaders).body == raw.data
    ensures !noHeaders ==> GetProcessed(raw, 0, 0, noHeaders) == Wrapped(raw.titles, raw.data)
  {
    var v := GetProcessed(raw, 0, 0, noHeaders);
    assert |v.body| == |raw.data|;
    forall r | 0 <= r < |raw.data|
      ensures v.body[r] == raw.data[r]
    {
    }
    assert raw.titles[..|raw.titles|] == raw.titles;
  }

  // ---------------------------------------------------------------------
  // Search text

  /** `get_search_text`: the field contributes nothing to search indexing. */
  function GetSearchText(raw: StoredTable): (s: string)
    ensures |s| == 0
  {
    ""
  }
}
