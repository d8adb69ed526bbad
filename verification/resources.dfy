/** The once-per-page stylesheet include of `add_page_resources`. The PHP code
    keeps its "already added" flag in a static class property; here the flag
    and the page head it guards travel together as an explicit value. */
module PageResources {

  /** The page being rendered: whether the include block was added, and the
      head content appended so far, one `add_head_content` argument per entry. */
  datatype Page = Page(resourcesAdded: bool, head: seq<string>)

  /** `PHP_EOL`, taken to be a single line feed. */
  const Eol: string := "\n"

  /** The seven pieces appended to the head, in order, for a site whose
      admin lives under `loginPath`. */
  function IncludeBlock(loginPath: string): seq<string> {
    [ Eol,
      "\t<!-- BEGIN: Include files for the tabular fieldtype -->",
      Eol,
      "\t<link rel=\"stylesheet\" href=\"" + loginPath + "/addons/fieldtypes/tabular/assets/tabular.css\" />",
      Eol,
      "\t<!-- END: Include files for the tabular fieldtype -->",
      Eol ]
  }

  /** `add_page_resources`: the first call appends the include block and sets
      the flag; once the flag is set, a call changes nothing. */
  function AddPageResources(p: Page, loginPath: string): (p': Page)
    ensures p'.resourcesAdded
    ensures p.resourcesAdded ==> p' == p
    ensures !p.resourcesAdded ==> p'.head == p.head + IncludeBlock(loginPath)
  {
    if p.resourcesAdded then p
    else Page(true, p.head + IncludeBlock(loginPath))
  }

  /** The page after `n` successive calls. */
  function AddRepeatedly(p: Page, loginPath: string, n: nat): Page {
    if n == 0 then p else AddPageResources(AddRepeatedly(p, loginPath, n - 1), loginPath)
  }

  /** However many times the field asks for its resources, the page ends up
      as after the first request. */
  lemma {:induction false} OnlyFirstCallCounts(p: Page, loginPath: string, n: nat)
    requires n >= 1
    ensures AddRepeatedly(p, loginPath, n) == AddPageResources(p, loginPath)
  {
    if n > 1 {
      OnlyFirstCallCounts(p, loginPath, n - 1);
    }
  }

  /** On a fresh page, any positive number of calls leaves exactly one
      include block in the head. */
  lemma {:induction false} FreshPageGetsOneBlock(loginPath: string, n: nat)
    requires n >= 1
    ensures AddRepeatedly(Page(false, []), loginPath, n).head == IncludeBlock(loginPath)
  {
    OnlyFirstCallCounts(Page(false, []), loginPath, n);
  }
}
