/**
 * Static-page helpers: a page body with a fallback, the customisable footer
 * columns (optionally per instance), and the external navigation rendered
 * from a tree of pages as nested HTML lists, with the top-level entry that
 * leads to the current page marked.
 *
 * The page store is a map from page key to body; the navigation tree that the
 * external CMS returns is a parameter.
 */
module StaticPages {
  import opened Text
  import opened UserModel

  // ---------------------------------------------------------------- page bodies

  /** `get_body`: the body of the page with this key, or the default. */
  function GetBody(pages: map<string, string>, key: string, default: string): (r: string)
    ensures key in pages ==> r == pages[key]
    ensures key !in pages ==> r == default
  {
    if key !in pages then default else pages[key]
  }

  /** The page key of a footer column: `footer_<column>`, with `_<instance key>`
      appended when the instance has footers of its own. */
  function FooterPageKey(column: string, instance: Option<Instance>, instanceFooters: seq<string>): (key: string)
    ensures StartsWith(key, "footer_" + column)
    ensures instance.Some? && instance.value.key in instanceFooters ==> key == "footer_" + column + "_" + instance.value.key
    ensures !(instance.Some? && instance.value.key in instanceFooters) ==> key == "footer_" + column
  {
    var path := "footer_" + column;
    if instance.Some? && instance.value.key in instanceFooters then path + "_" + instance.value.key else path
  }

  /** Two instances with footers of their own never share a footer page, and
      neither reads the shared one. */
  lemma FooterPagesPerInstance(column: string, a: Instance, b: Instance, instanceFooters: seq<string>)
    requires a.key in instanceFooters && b.key in instanceFooters && a.key != b.key
    ensures FooterPageKey(column, Some(a), instanceFooters) != FooterPageKey(column, Some(b), instanceFooters)
    ensures FooterPageKey(column, Some(a), instanceFooters) != FooterPageKey(column, None, instanceFooters)
  {
    var prefix := "footer_" + column + "_";
    assert (prefix + a.key)[|prefix|..] == a.key;
    assert (prefix + b.key)[|prefix|..] == b.key;
    assert |prefix + a.key| > |"footer_" + column|;
  }

  /** `render_footer_column`: the footer page's body, or nothing when footer
      customisation is off or the page does not exist. */
  function RenderFooterColumn(customizeFooter: bool, instance: Option<Instance>, column: string,
                              instanceFooters: seq<string>, pages: map<string, string>): (r: Option<string>)
    ensures !customizeFooter ==> r.None?
    ensures r.Some? <==> customizeFooter && FooterPageKey(column, instance, instanceFooters) in pages
    ensures r.Some? ==> r.value == pages[FooterPageKey(column, instance, instanceFooters)]
  {
    if !customizeFooter then None
    else
      var path := FooterPageKey(column, instance, instanceFooters);
      if path !in pages then None else Some(pages[path])
  }

  /** An instance without footers of its own shows the shared footer, the
      same as outside any instance. */
  lemma SharedFooterWithoutOwnPages(customizeFooter: bool, instance: Instance, column: string,
                                    instanceFooters: seq<string>, pages: map<string, string>)
    requires instance.key !in instanceFooters
    ensures RenderFooterColumn(customizeFooter, Some(instance), column, instanceFooters, pages) ==
            RenderFooterColumn(customizeFooter, None, column, instanceFooters, pages)
  {
  }

  /** With customisation on, a footer column shows exactly what `get_body`
      gives for its page, whenever that page exists. */
  lemma FooterColumnIsPageBody(instance: Option<Instance>, column: string, instanceFooters: seq<string>,
                               pages: map<string, string>, default: string)
    ensures var key := FooterPageKey(column, instance, instanceFooters);
      RenderFooterColumn(true, instance, column, instanceFooters, pages) ==
        if key in pages then Some(GetBody(pages, key, default)) else None
  {
  }

  // ---------------------------------------------------------------- navigation

  /** A page of the navigation tree as the CMS returns it. */
  datatype NavItem = NavItem(name: string, title: string, children: seq<NavItem>)

  /** An item's path: its name at top level, `<parent path>/<name>` below. */
  function ItemPath(parentPath: string, name: string): (path: string)
    ensures parentPath == "" ==> path == name
    ensures parentPath != "" ==> StartsWith(path, parentPath + "/") && path[|parentPath| + 1..] == name
  {
    if parentPath != "" then parentPath + "/" + name else name
  }

  function Link(path: string): string {
    "/static/" + path + ".html"
  }

  /** The HTML of one item and whether it or a descendant is the current page. */
  datatype RenderedItem = RenderedItem(html: string, containsCurrent: bool)

  /** `render_navigation_item`: an item contains the current page exactly
      when the current key is the path of the item or of one of its
      descendants. */
  function RenderItem(item: NavItem, parentPath: string, toplevel: bool, currentKey: string): (r: RenderedItem)
    ensures r.containsCurrent <==> currentKey in SubtreePaths(item, parentPath)
    decreases item
  {
    var path := ItemPath(parentPath, item.name);
    var kids := seq(|item.children|, i requires 0 <= i < |item.children| =>
      RenderItem(item.children[i], path, false, currentKey));
    var containsCurrent := path == currentKey || AnyContainsCurrent(kids);
    ForestPathsMembers(item.children, path, currentKey);
    assert AnyContainsCurrent(kids) <==> currentKey in ForestPaths(item.children, path) by {
      assert forall i :: 0 <= i < |kids| ==> kids[i] == RenderItem(item.children[i], path, false, currentKey);
    }
    RenderedItem(ItemHtml(path, item.title, toplevel && containsCurrent, Htmls(kids)), containsCurrent)
  }

  predicate AnyContainsCurrent(kids: seq<RenderedItem>) {
    exists i :: 0 <= i < |kids| && kids[i].containsCurrent
  }

  function Htmls(kids: seq<RenderedItem>): (htmls: seq<string>)
    ensures |htmls| == |kids| && forall i :: 0 <= i < |kids| ==> htmls[i] == kids[i].html
  {
    seq(|kids|, i requires 0 <= i < |kids| => kids[i].html)
  }

  /** One list entry: its opening, then the nested list of the children's
      entries if there are any, then the closing tag. */
  function ItemHtml(path: string, title: string, current: bool, childHtmls: seq<string>): string {
    Opening(path, title, current) + ChildrenHtml(childHtmls) + "</li>"
  }

  /** The opening of an entry: the list-item tag, with the marker class when
      `current`, and the link to `/static/<path>.html`. */
  function Opening(path: string, title: string, current: bool): string {
    ItemTag(current) + Anchor(path, title)
  }

  function ItemTag(current: bool): string {
    if current then "<li class=\"current\">" else "<li>"
  }

  /** The link to a page: `<a href="/static/<path>.html"><title></a>`. */
  function Anchor(path: string, title: string): string {
    "<a href=\"" + Link(path) + "\">" + title + "</a>"
  }

  function ChildrenHtml(childHtmls: seq<string>): string {
    if childHtmls != [] then "\n<ul class=\"children\">\n" + Join("\n", childHtmls) + "\n</ul>\n" else ""
  }

  /** Every path in an item's subtree: its own and, recursively, its children's. */
  function SubtreePaths(item: NavItem, parentPath: string): (paths: set<string>)
    ensures ItemPath(parentPath, item.name) in paths
    decreases item
  {
    var path := ItemPath(parentPath, item.name);
    {path} + ForestPaths(item.children, path)
  }

  /** Every path in the subtrees of a list of siblings under `parentPath`. */
  function ForestPaths(items: seq<NavItem>, parentPath: string): (paths: set<string>)
    decreases items
  {
    if items == [] then {} else SubtreePaths(items[0], parentPath) + ForestPaths(items[1..], parentPath)
  }

  /** A path lies in a list of sibling subtrees exactly when it lies in one of them. */
  lemma {:induction false} ForestPathsMembers(items: seq<NavItem>, parentPath: string, key: string)
    ensures key in ForestPaths(items, parentPath) <==>
      exists i :: 0 <= i < |items| && key in SubtreePaths(items[i], parentPath)
    decreases items
  {
    if items != [] {
      ForestPathsMembers(items[1..], parentPath, key);
      if key in ForestPaths(items[1..], parentPath) {
        var j :| 0 <= j < |items[1..]| && key in SubtreePaths(items[1..][j], parentPath);
        assert items[j + 1] == items[1..][j];
      }
      if exists i :: 0 <= i < |items| && key in SubtreePaths(items[i], parentPath) {
        var i :| 0 <= i < |items| && key in SubtreePaths(items[i], parentPath);
        if i > 0 {
          assert items[1..][i - 1] == items[i];
        }
      }
    }
  }

  lemma PrefixOfConcat(a: string, b: string)
    ensures StartsWith(a + b, a)
  {
    assert (a + b)[..|a|] == a;
  }

  lemma PrefixTransitive(s: string, p: string, q: string)
    requires StartsWith(s, p) && |q| <= |p|
    ensures StartsWith(s, q) <==> StartsWith(p, q)
  {
    assert s[..|q|] == p[..|q|];
  }

  /** Only a marked opening starts with the marked list-item tag. */
  lemma OpeningMarked(path: string, title: string, current: bool)
    ensures StartsWith(Opening(path, title, current), ItemTag(true)) <==> current
  {
    var open := Opening(path, title, current);
    PrefixOfConcat(ItemTag(current), Anchor(path, title));
    if !current {
      assert |Anchor(path, title)| >= 16;
      assert open[3] == ItemTag(false)[3] == '>';
      assert ItemTag(true)[3] == ' ';
    }
  }

  lemma ItemHtmlOpens(path: string, title: string, current: bool, childHtmls: seq<string>)
    ensures StartsWith(ItemHtml(path, title, current, childHtmls), Opening(path, title, current))
    ensures StartsWith(ItemHtml(path, title, current, childHtmls), ItemTag(true)) <==> current
  {
    var open := Opening(path, title, current);
    PrefixOfConcat(open, ChildrenHtml(childHtmls) + "</li>");
    assert ItemHtml(path, title, current, childHtmls) == open + (ChildrenHtml(childHtmls) + "</li>");
    OpeningMarked(path, title, current);
    assert |Anchor(path, title)| >= 16;
    PrefixTransitive(ItemHtml(path, title, current, childHtmls), open, ItemTag(true));
  }

  /** An item's markup opens with its link to `/static/<path>.html`, and carries
      `class="current"` exactly when it is a top-level item containing the
      current page; a nested item never carries it. */
  lemma ItemMarkup(item: NavItem, parentPath: string, toplevel: bool, currentKey: string)
    ensures var r := RenderItem(item, parentPath, toplevel, currentKey);
      StartsWith(r.html, Opening(ItemPath(parentPath, item.name), item.title, toplevel && r.containsCurrent))
    ensures StartsWith(RenderItem(item, parentPath, toplevel, currentKey).html, "<li class=\"current\">") <==>
      toplevel && currentKey in SubtreePaths(item, parentPath)
  {
    var r := RenderItem(item, parentPath, toplevel, currentKey);
    var path := ItemPath(parentPath, item.name);
    var kids := seq(|item.children|, i requires 0 <= i < |item.children| =>
      RenderItem(item.children[i], path, false, currentKey));
    assert r.html == ItemHtml(path, item.title, toplevel && r.containsCurrent, Htmls(kids));
    ItemHtmlOpens(path, item.title, toplevel && r.containsCurrent, Htmls(kids));
  }

  /** The entries of the top-level items, one per item, in order. */
  function TopLevelEntries(items: seq<NavItem>, currentKey: string): (entries: seq<string>)
    ensures |entries| == |items|
    ensures forall i :: 0 <= i < |items| ==> entries[i] == RenderItem(items[i], "", true, currentKey).html
  {
    seq(|items|, i requires 0 <= i < |items| => RenderItem(items[i], "", true, currentKey).html)
  }

  /** `render_external_navigation`, given the top-level items the CMS returned
      (`None` when it returned no navigation or one without children). */
  function RenderExternalNavigation(nav: Option<seq<NavItem>>, currentKey: string): (html: string)
    ensures html == "" <==> nav.None? || nav.value == []
  {
    if nav.None? || nav.value == [] then ""
    else
      var entries := TopLevelEntries(nav.value, currentKey);
      JoinStartsWithFirst("\n", entries);
      ItemMarkup(nav.value[0], "", true, currentKey);
      Join("\n", entries)
  }

  /** A non-empty navigation opens with the first top-level item. */
  lemma NavigationOpensWithFirstItem(items: seq<NavItem>, currentKey: string)
    requires items != []
    ensures StartsWith(RenderExternalNavigation(Some(items), currentKey), RenderItem(items[0], "", true, currentKey).html)
  {
    JoinStartsWithFirst("\n", TopLevelEntries(items, currentKey));
  }

  /** A non-empty navigation is its top-level entries, one per item and in
      order, joined by newlines. Each entry opens with the item's link and
      carries `class="current"` exactly when the current page lies in that
      item's subtree. */
  lemma NavigationEntries(items: seq<NavItem>, currentKey: string)
    requires items != []
    ensures exists entries: seq<string> ::
      |entries| == |items| && RenderExternalNavigation(Some(items), currentKey) == Join("\n", entries) &&
      forall i :: 0 <= i < |items| ==>
        StartsWith(entries[i], Opening(items[i].name, items[i].title, currentKey in SubtreePaths(items[i], ""))) &&
        (StartsWith(entries[i], ItemTag(true)) <==> currentKey in SubtreePaths(items[i], ""))
  {
    var entries := TopLevelEntries(items, currentKey);
    forall i | 0 <= i < |items|
      ensures StartsWith(entries[i], Opening(items[i].name, items[i].title, currentKey in SubtreePaths(items[i], "")))
      ensures StartsWith(entries[i], ItemTag(true)) <==> currentKey in SubtreePaths(items[i], "")
    {
      ItemMarkup(items[i], "", true, currentKey);
    }
  }
}
