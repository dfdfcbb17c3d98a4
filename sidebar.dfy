/**
 * The sidebar as configured (groups of items, each item with an optional slug,
 * href, icon and nested items) and its conversion into the navigation tree the
 * sidebar component draws; and the `{year}` placeholder of footer texts.
 */
module Sidebar {
  import opened Wrappers
  import opened Strings

  /** A configured sidebar entry; absent optional fields are None. */
  datatype SidebarItem = SidebarItem(
    text: string,
    slug: Option<string>,
    href: Option<string>,
    icon: Option<string>,
    items: SubItems)

  /** The optional `items` array of a sidebar entry. */
  datatype SubItems = Absent | Present(entries: seq<SidebarItem>)

  datatype SidebarGroup = SidebarGroup(text: string, icon: Option<string>, items: seq<SidebarItem>)

  /** An entry of the drawn navigation tree. */
  datatype NavItem = NavItem(title: string, href: Option<string>, icon: Option<string>, items: NavSubItems)

  datatype NavSubItems = NavAbsent | NavPresent(entries: seq<NavItem>)

  datatype NavGroup = NavGroup(title: string, items: seq<NavItem>)

  /** A string field counts in `a || b` and `a ? b : c` only when present and non-empty. */
  predicate Truthy(s: Option<string>) {
    s.Some? && s.value != ""
  }

  /**
   * The link of an item: its own href when non-empty, else `/docs/` and the
   * slug when the slug is non-empty, else none.
   */
  function ItemHref(item: SidebarItem): (r: Option<string>)
    ensures Truthy(item.href) ==> r == item.href
    ensures !Truthy(item.href) && Truthy(item.slug) ==> r == Some("/docs/" + item.slug.value)
    ensures r.None? <==> !Truthy(item.href) && !Truthy(item.slug)
  {
    if Truthy(item.href) then item.href
    else if Truthy(item.slug) then Some("/docs/" + item.slug.value)
    else None
  }

  /** One item of convertSidebarItems: children converted when present, absent when absent. */
  function ConvertItem(item: SidebarItem): (r: NavItem)
    ensures r.title == item.text && r.href == ItemHref(item) && r.icon == item.icon
    ensures r.items.NavPresent? <==> item.items.Present?
    decreases item
  {
    var children := match item.items
      case Absent => NavAbsent
      case Present(kids) => NavPresent(ConvertSidebarItems(kids));
    NavItem(item.text, ItemHref(item), item.icon, children)
  }

  /** convertSidebarItems: the same items in the same order, each converted. */
  function ConvertSidebarItems(items: seq<SidebarItem>): (r: seq<NavItem>)
    ensures |r| == |items|
    decreases items
  {
    seq(|items|, i requires 0 <= i < |items| => ConvertItem(items[i]))
  }

  /** convertSidebar: the same groups in the same order, each titled with its label. */
  function ConvertSidebar(groups: seq<SidebarGroup>): (r: seq<NavGroup>)
    ensures |r| == |groups|
    ensures forall i :: 0 <= i < |groups| ==>
      r[i].title == groups[i].text && r[i].items == ConvertSidebarItems(groups[i].items)
  {
    seq(|groups|, i requires 0 <= i < |groups| => NavGroup(groups[i].text, ConvertSidebarItems(groups[i].items)))
  }

  // ---------------------------------------------------------------------------
  // Shape preservation
  // ---------------------------------------------------------------------------

  /** What the two trees have in common: the labels, the icons and the nesting. */
  datatype Shape = Shape(text: string, icon: Option<string>, children: ShapeChildren)

  datatype ShapeChildren = NoShapes | Shapes(entries: seq<Shape>)

  function ConfigItemShape(item: SidebarItem): Shape
    decreases item
  {
    Shape(item.text, item.icon,
      match item.items
      case Absent => NoShapes
      case Present(kids) => Shapes(ConfigShape(kids)))
  }

  function ConfigShape(items: seq<SidebarItem>): seq<Shape>
    decreases items
  {
    seq(|items|, i requires 0 <= i < |items| => ConfigItemShape(items[i]))
  }

  function NavItemShape(item: NavItem): Shape
    decreases item
  {
    Shape(item.title, item.icon,
      match item.items
      case NavAbsent => NoShapes
      case NavPresent(kids) => Shapes(NavShape(kids)))
  }

  function NavShape(items: seq<NavItem>): seq<Shape>
    decreases items
  {
    seq(|items|, i requires 0 <= i < |items| => NavItemShape(items[i]))
  }

  /** The conversion keeps the tree: every level has the same labels, icons and nesting, in order. */
  lemma {:induction false} ConvertKeepsShape(items: seq<SidebarItem>)
    ensures NavShape(ConvertSidebarItems(items)) == ConfigShape(items)
    decreases items
  {
    forall i | 0 <= i < |items|
      ensures NavItemShape(ConvertItem(items[i])) == ConfigItemShape(items[i])
    {
      ConvertItemKeepsShape(items[i]);
    }
  }

  lemma {:induction false} ConvertItemKeepsShape(item: SidebarItem)
    ensures NavItemShape(ConvertItem(item)) == ConfigItemShape(item)
    decreases item
  {
    match item.items {
      case Absent =>
      case Present(kids) => ConvertKeepsShape(kids);
    }
  }

  /** The links of the converted tree, in pre-order: one per item that has a link. */
  function NavItemLinks(item: NavItem): seq<string>
    decreases item
  {
    (if item.href.Some? then [item.href.value] else [])
    + match item.items
      case NavAbsent => []
      case NavPresent(kids) => NavLinks(kids)
  }

  function NavLinks(items: seq<NavItem>): seq<string>
    decreases items
  {
    if |items| == 0 then [] else NavItemLinks(items[0]) + NavLinks(items[1..])
  }

  /** The links the configuration gives, in pre-order. */
  function ConfigItemLinks(item: SidebarItem): seq<string>
    decreases item
  {
    (if ItemHref(item).Some? then [ItemHref(item).value] else [])
    + match item.items
      case Absent => []
      case Present(kids) => ConfigLinks(kids)
  }

  function ConfigLinks(items: seq<SidebarItem>): seq<string>
    decreases items
  {
    if |items| == 0 then [] else ConfigItemLinks(items[0]) + ConfigLinks(items[1..])
  }

  /** Every link of the converted tree is the configured item's link, at every depth and in order. */
  lemma {:induction false} ConvertKeepsLinks(items: seq<SidebarItem>)
    ensures NavLinks(ConvertSidebarItems(items)) == ConfigLinks(items)
    decreases items
  {
    if |items| > 0 {
      ConvertItemKeepsLinks(items[0]);
      ConvertKeepsLinks(items[1..]);
      assert ConvertSidebarItems(items)[1..] == ConvertSidebarItems(items[1..]);
    }
  }

  lemma {:induction false} ConvertItemKeepsLinks(item: SidebarItem)
    ensures NavItemLinks(ConvertItem(item)) == ConfigItemLinks(item)
    decreases item
  {
    match item.items {
      case Absent =>
      case Present(kids) => ConvertKeepsLinks(kids);
    }
  }

  // ---------------------------------------------------------------------------
  // Placeholders
  // ---------------------------------------------------------------------------

  const YearPlaceholder := "{year}"

  /**
   * replacePlaceholders, with the current year passed in: the first `{year}`
   * becomes the year's decimal digits; text without one is unchanged.
   */
  function ReplacePlaceholders(text: string, year: int): (r: string)
    ensures (forall j :: !OccursAt(text, YearPlaceholder, j)) ==> r == text
    ensures forall i :: FirstOccurrence(text, YearPlaceholder, i) ==>
      r == text[..i] + IntToString(year) + text[i + |YearPlaceholder|..]
  {
    ReplaceFirst(text, YearPlaceholder, IntToString(year))
  }

  /**
   * Only the first `{year}` is replaced: in `a{year}b` where `a` has no `{`,
   * the result is `a`, the year's digits, then `b` as it was (further
   * placeholders in `b` stay).
   */
  lemma FirstPlaceholderReplaced(a: string, b: string, year: int)
    requires NoChar(a, '{')
    ensures ReplacePlaceholders(a + YearPlaceholder + b, year) == a + IntToString(year) + b
  {
    ReplaceFirstAfter(a, YearPlaceholder, b, IntToString(year));
  }
}
