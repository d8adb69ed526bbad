# Tabular field type — Dafny model

This project models `PerchFieldType_tabular`, a field type for the Perch CMS.
The field is an editable grid. The template declares a row count and a
comma-separated list of column titles. The field type has four jobs:

- build the admin-panel input grid from the declared shape and any stored data (`render_inputs`);
- turn a form submission into the stored record `{titles, data}` and drop trailing blank rows (`get_raw`);
- render a stored record as a public HTML table, with optional row and column caps and an optional headerless mode (`get_processed`);
- add its stylesheet to the page head once (`add_page_resources`).

Layout:

- `text.dfy` (module `Text`): PHP `trim` with its default character set (space, tab, LF, CR, NUL, vertical tab); `explode(',', …)` as `Split`, with `Join` as its inverse.
- `decimal.dfy` (module `Decimal`): `sprintf('%d', n)` as `Format`, and the `Parse` that inverts it.
- `tabular.dfy` (module `Tabular`): cell ids, the admin grid, submission parsing (a functional definition plus the loop version `GetRaw`), public rendering, and search text.
- `resources.dfy` (module `PageResources`): the once-only head include.
- `roundtrip.dfy` (module `RoundTrip`): how the grid and the parser fit together.

Host calls become plain parameters:

- `$this->Tag->rows()` after `intval(trim(…))` is `rows: int`.
- `$this->Tag->cols()` is an `Attribute`. `Absent` stands for the host returning `false`, which it does both for a missing attribute and for one written as `"false"`; any other value is `Present(text)`.
- The `limitrows`/`limitcols` integers and the `noheaders` flag are plain values.
- The posted form is a `map<string, string>`.
- Stored data for the admin grid is a `seq<seq<string>>`. It is empty when nothing was stored.

The admin grid and the public table are modelled as structures: `AdminView` and `PublicView`. `PublicMarkup` also spells out the tags `get_processed` concatenates.

Points where the code's behaviour is easy to misread; the model follows the code:

- `render_inputs` does not call `add_page_resources`. It is a separate hook of the field type, so the two are modelled separately.
- `render_inputs` rejects only a row count or a column count that is not positive. A column list like `",,"` gives three columns with empty titles; it is not rejected.
- `get_raw` explodes the `cols` attribute without the truthiness guard `render_inputs` uses. A missing attribute therefore gives one column titled `""`. `RoundTrip.ColsText` models that reading.
- `render_inputs` names its inputs after `input_id`, and `get_raw` looks values up under `id`. The round-trip lemmas pass one and the same id to both. That is the assumption under which the host makes them agree.

## Model

| member | source | states |
|---|---|---|
| Text.Trim | tabular/tabular.class.php:214-215 | a trimmed string neither starts nor ends with one of PHP's default trim characters, and is no longer than its input |
| Text.TrimIsInfix | tabular/tabular.class.php:214-215 | trimming removes only whitespace: the result is an infix of the input with only whitespace around it |
| Text.TrimIdempotent | tabular/tabular.class.php:122 | trimming an already trimmed value (as `render_inputs` does to stored cells) changes nothing |
| Text.TrimLeftCutsSpace | tabular/tabular.class.php:187 | the left half of `trim` keeps a suffix and cuts only whitespace |
| Text.TrimRightCutsSpace | tabular/tabular.class.php:187 | the right half of `trim` cuts only whitespace |
| Text.Split | tabular/tabular.class.php:184 | `explode(',', s)` gives at least one piece, no piece holds a comma, and joining the pieces with commas gives back `s` |
| Text.SplitJoin | tabular/tabular.class.php:184 | exploding comma-joined comma-free pieces gives back exactly those pieces |
| Decimal.Format | tabular/tabular.class.php:30 | `%d` output is non-empty, made of digits and a sign, starts with `-` exactly for negative numbers, and has no leading zero (the only numeral starting with `0` is `0` itself) |
| Decimal.FormatRoundTrip | tabular/tabular.class.php:30 | reading back the `%d` text of any integer gives that integer |
| Decimal.FormatInjective | tabular/tabular.class.php:30 | distinct integers give distinct `%d` texts |
| Tabular.CellId | tabular/tabular.class.php:28-31 | a cell id starts with the base id followed by `_row`, and is at least seven characters longer than it: `_row`, `_` and at least one digit per index; `CellIdInjective` shows it determines the row and column |
| Tabular.CellIdInjective | tabular/tabular.class.php:28-31 | for a fixed base id, `id_row<r>_<c>` determines both `r` and `c` |
| Tabular.DeclaredTitles | tabular/tabular.class.php:76-77 | the grid gets no columns exactly when the `cols` attribute is missing or PHP-falsy; otherwise its titles are the comma-split attribute text |
| Tabular.RenderInputs | tabular/tabular.class.php:75-131 | the error notice, carrying both counts, exactly when `rows <= 0` or `cols <= 0`; otherwise exactly `cols` trimmed headers and `rows` rows of `cols` inputs, cell (r,c) named by its cell id and pre-filled with the trimmed stored value when both indices are in range, else `""` |
| Tabular.RenderIgnoresSurplus | tabular/tabular.class.php:98-127 | stored rows and columns beyond the declared shape do not affect the grid: it equals the grid for the data cropped to that shape |
| Tabular.GridNamesDistinct | tabular/tabular.class.php:124 | no two inputs of one grid share an element id |
| Tabular.PostedValue | tabular/tabular.class.php:211-219 | a cell is non-empty exactly when its key was posted with a value whose trim is non-empty, and then it is that trimmed value |
| Tabular.DropTrailingBlank | tabular/tabular.class.php:225-231 | the kept rows are a prefix, every row cut off is blank, and a non-empty result ends in a row with content |
| Tabular.DropTrailingBlankUnique | tabular/tabular.class.php:229-231 | any cut point after which all rows are blank and just before which the row is not blank is the one `DropTrailingBlank` picks |
| Tabular.KeptRows | tabular/tabular.class.php:202-231 | the stored rows are the posted rows in order, at most `rows` of them, with only blank rows after them and a non-blank last row |
| Tabular.ParseSubmission | tabular/tabular.class.php:184-239 | titles are the trimmed comma-split pieces, one per piece; every stored row has one cell per title, cell (r,c) is the posted value of its cell id; `data` ends at the last row with content, holds no more than `rows` rows, and every later declared row was blank |
| Tabular.ReadRow | tabular/tabular.class.php:207-220 | the inner loop reads row `r` cell by cell and marks it populated exactly when some cell is non-blank |
| Tabular.TrimTitles | tabular/tabular.class.php:184-188 | the title loop stores every exploded piece, trimmed, in order |
| Tabular.ReadRows | tabular/tabular.class.php:202-224 | the row loop reads every declared row and leaves the last-populated-row mark on the last row holding a non-blank cell, or at -1 when there is none |
| Tabular.KeptRowsCut | tabular/tabular.class.php:229-231 | cutting the posted rows just after the last populated row gives exactly the rows `get_raw` keeps |
| Tabular.GetRaw | tabular/tabular.class.php:151-240 | the title loop stores the trimmed exploded pieces, and the row loop with its last-populated-row mark and the final `array_splice` stores exactly the posted rows `KeptRows` selects, so the method computes `ParseSubmission` |
| Tabular.Limit | tabular/tabular.class.php:268-274 | an effective size never exceeds the stored size; a limit of zero or less leaves it unchanged; a positive limit gives the smaller of limit and size |
| Tabular.GetProcessed | tabular/tabular.class.php:254-320 | headerless output exactly when `noheaders`; headers are the first `Limit(cols)` titles; the body is the top-left `Limit(rows) x Limit(cols)` block of the stored data |
| Tabular.PublicMarkup | tabular/tabular.class.php:290-319 | a headerless rendering is `<tbody>…</tbody>`; otherwise it opens with `<table><thead><tr>` and closes with `</tbody></table>` |
| Tabular.ParsedIsRenderable | tabular/tabular.class.php:303-310 | a record built by `get_raw` can be rendered with any limits: every shown row has a cell for every shown column |
| Tabular.NoLimitShowsAll | tabular/tabular.class.php:268-274 | with no limits, a record whose rows match its titles is shown whole, with its titles as headers |
| Tabular.GetSearchText | tabular/tabular.class.php:322-325 | the field contributes the empty string to search |
| PageResources.AddPageResources | tabular/tabular.class.php:327-346 | after a call the flag is set; with the flag set a call changes nothing; otherwise the seven include pieces are appended to the head |
| PageResources.OnlyFirstCallCounts | tabular/tabular.class.php:329-331 | any positive number of calls leaves the page as the first call did |
| PageResources.FreshPageGetsOneBlock | tabular/tabular.class.php:336-345 | on a fresh page, any positive number of calls leaves exactly one include block in the head |
| RoundTrip.ColsText | tabular/tabular.class.php:184 | `get_raw` explodes exactly the attribute's text (the empty string when it is missing), without a truthiness guard: where the grid has columns it reads the same titles; where the grid has no columns (the attribute is missing, `""` or `"0"`) it reads one column, titled `""` or `"0"`, and a missing attribute gives `[""]` |
| RoundTrip.StoredCellShowsPosted | tabular/tabular.class.php:116-122 | pre-filling the grid from a parsed record shows, for each declared cell, exactly the posted value, including in rows the parser dropped |
| RoundTrip.RenderThenParse | tabular/tabular.class.php:212-222 | submitting an unedited grid stores the grid's headers as titles and its values minus trailing blank rows |
| RoundTrip.ParseThenRender | tabular/tabular.class.php:114-127 | re-rendering a stored record shows the full submitted matrix; dropped trailing rows come back empty |
| RoundTrip.ResaveKeepsRecord | tabular/tabular.class.php:229-237 | saving an unedited grid of a stored record stores the same record |

## Left out

- Host services are not modelled: `$this->Tag->*()`, `$this->Form->text`, `PerchUtil::count`, `PerchUtil::bool_val`, `Perch::fetch()->add_head_content`. Their results are parameters, and the head is a sequence of appended strings.
- The `$_POST` fallback in `get_raw` reads a global, so the posted map is always passed explicitly.
- PHP coercions are not modelled: `intval` of non-numeric text, the `is_array` checks on `$details`, and `bool_val` of the `noheaders` attribute. The model takes their results as `int`/`bool` values and stored data as a sequence of rows.
- The error notice's markup and wording are left out; the notice keeps the two counts it reports.
- The admin grid's HTML markup is left out. It is modelled as header strings and a matrix of (element id, value) pairs.
- Tabular.GetProcessed: requires every shown row to have a cell for every shown column. PHP would read a missing cell as an undefined offset; `get_raw`'s own records always meet this requirement (`ParsedIsRenderable`).
- The asset path prefix `PERCH_LOGINPATH` is a parameter, and `PHP_EOL` is taken to be `"\n"`.
- The `add_page_resources` flag is a static class property, so it lasts for one request, which is one rendered page. The model carries it in an explicit `Page` value.
