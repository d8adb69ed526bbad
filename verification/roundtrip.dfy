/** How the admin grid and the submission parser fit together. The grid names
    its inputs with the host-generated input id and the parser looks them up
    with the template id; the host is expected to make the two agree, and
    every lemma here passes one and the same id to both. */
module RoundTrip {
  import opened Text
  import opened Tabular

  /** The pre-filled values of a grid, row by row. */
  function GridValues(body: seq<seq<Input>>): (m: seq<seq<string>>)
    ensures |m| == |body|
    ensures forall r :: 0 <= r < |body| ==> |m[r]| == |body[r]|
    ensures forall r, c :: 0 <= r < |body| && 0 <= c < |body[r]| ==> m[r][c] == body[r][c].value
  {
    seq(|body|, r requires 0 <= r < |body| =>
      seq(|body[r]|, c requires 0 <= c < |body[r]| => body[r][c].value))
  }

  /** `post` is what the browser sends for an unedited grid: every input
      arrives under its own name with its pre-filled value. */
  predicate Submits(post: map<string, string>, body: seq<seq<Input>>) {
    forall r, c :: 0 <= r < |body| && 0 <= c < |body[r]| ==>
      body[r][c].name in post && post[body[r][c].name] == body[r][c].value
  }

  /** The column attribute as `get_raw` reads it: a missing attribute is
      exploded as the empty string. Where the grid has columns, `get_raw`
      reads the same titles; where the grid has no columns (the attribute is
      missing, "" or "0"), `get_raw` still reads one column, titled "" or "0". */
  function ColsText(cols: Attribute): (s: string)
    ensures cols.Present? ==> s == cols.text
    ensures cols.Present? && Truthy(cols.text) ==> Split(s) == DeclaredTitles(cols)
    ensures |DeclaredTitles(cols)| == 0 ==> Split(s) == [s] && (s == "" || s == "0")
    ensures cols.Absent? ==> Split(s) == [""]
  {
    if cols.Present? then cols.text else ""
  }

  /** A value that is already trimmed (or empty) reads back unchanged. */
  lemma PostedTrimmed(post: map<string, string>, key: string, x: string)
    requires key in post && post[key] == Trim(x)
    ensures PostedValue(post, key) == Trim(x)
  {
    TrimIdempotent(x);
  }

  /** Submitting an unedited grid stores the grid's headers as titles and
      its values, less the trailing blank rows. */
  lemma RenderThenParse(inputId: string, rows: int, cols: Attribute, data: seq<seq<string>>,
                        post: map<string, string>)
    requires RenderInputs(inputId, rows, cols, data).InputGrid?
    requires Submits(post, RenderInputs(inputId, rows, cols, data).body)
    ensures var v := RenderInputs(inputId, rows, cols, data);
      ParseSubmission(inputId, rows, ColsText(cols), post)
        == StoredTable(v.headers, DropTrailingBlank(GridValues(v.body)))
  {
    var v := RenderInputs(inputId, rows, cols, data);
    var parts := Split(ColsText(cols));
    assert parts == DeclaredTitles(cols);
    var m := PostedMatrix(post, inputId, rows, |parts|);
    var g := GridValues(v.body);
    forall r | 0 <= r < rows
      ensures m[r] == g[r]
    {
      forall c | 0 <= c < |parts|
        ensures m[r][c] == g[r][c]
      {
        var cell := v.body[r][c];
        assert cell == Input(CellId(inputId, r, c), StoredValue(data, r, c));
        if r < |data| && c < |data[r]| {
          PostedTrimmed(post, cell.name, data[r][c]);
        } else {
          PostedTrimmed(post, cell.name, "");
        }
      }
    }
    assert m == g;
    assert TrimAll(parts) == v.headers;
  }

  /** A cell of the stored record, pre-filled into the grid, shows what was
      posted for it, whether or not its row was kept. */
  lemma StoredCellShowsPosted(id: string, rows: int, colsText: string, post: map<string, string>, r: nat, c: nat)
    requires r < rows && c < |Split(colsText)|
    ensures StoredValue(ParseSubmission(id, rows, colsText, post).data, r, c)
         == PostedValue(post, CellId(id, r, c))
  {
    var t := ParseSubmission(id, rows, colsText, post);
    var p := PostedValue(post, CellId(id, r, c));
    if r < |t.data| {
      assert t.data[r][c] == p;
      if p != "" {
        TrimIdempotent(post[CellId(id, r, c)]);
      }
    } else {
      assert PostedRow(post, id, r, |t.titles|)[c] == p;
    }
  }

  /** Re-rendering a stored record shows exactly the submitted matrix: the
      rows dropped as trailing blanks come back as empty inputs. */
  lemma ParseThenRender(inputId: string, rows: int, cols: Attribute, post: map<string, string>)
    requires rows > 0 && cols.Present? && Truthy(cols.text)
    ensures var t := ParseSubmission(inputId, rows, cols.text, post);
      var v := RenderInputs(inputId, rows, cols, t.data);
      && v.InputGrid?
      && v.headers == t.titles
      && GridValues(v.body) == PostedMatrix(post, inputId, rows, |t.titles|)
  {
    var t := ParseSubmission(inputId, rows, cols.text, post);
    var v := RenderInputs(inputId, rows, cols, t.data);
    var n := |t.titles|;
    var m := PostedMatrix(post, inputId, rows, n);
    assert DeclaredTitles(cols) == Split(cols.text);
    assert v.InputGrid? && |v.body| == rows;
    var g := GridValues(v.body);
    forall r | 0 <= r < rows
      ensures g[r] == m[r]
    {
      assert |g[r]| == n == |m[r]|;
      forall c | 0 <= c < n
        ensures g[r][c] == m[r][c]
      {
        StoredCellShowsPosted(inputId, rows, cols.text, post, r, c);
      }
    }
    assert g == m;
  }

  /** Saving an unedited grid of a stored record stores the same record. */
  lemma ResaveKeepsRecord(inputId: string, rows: int, cols: Attribute,
                          post: map<string, string>, post': map<string, string>)
    requires rows > 0 && cols.Present? && Truthy(cols.text)
    requires Submits(post', RenderInputs(inputId, rows, cols, ParseSubmission(inputId, rows, cols.text, post).data).body)
    ensures ParseSubmission(inputId, rows, cols.text, post') == ParseSubmission(inputId, rows, cols.text, post)
  {
    var t := ParseSubmission(inputId, rows, cols.text, post);
    ParseThenRender(inputId, rows, cols, post);
    RenderThenParse(inputId, rows, cols, t.data, post');
  }
}
