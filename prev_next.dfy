/**
 * The previous/next links under a page: the configured sidebar flattened in
 * pre-order into the linked items, the page found by its href, and its two
 * neighbours in that list.
 */
module PrevNext {
  import opened Wrappers
  import opened Sidebar
  import opened Strings

  /** A linked sidebar entry: its label and where it points. */
  datatype FlatItem = FlatItem(text: string, href: string)

  /** The entry an item makes by itself: one when it has a slug or an href, the href winning. */
  function OwnEntry(item: SidebarItem): seq<FlatItem> {
    if Truthy(item.slug) || Truthy(item.href) then
      [FlatItem(item.text, if Truthy(item.href) then item.href.value else "/docs/" + item.slug.value)]
    else []
  }

  /** An item's entry followed by those of its children, linked or not. */
  function FlattenItem(item: SidebarItem): seq<FlatItem>
    decreases item
  {
    OwnEntry(item)
    + match item.items
      case Absent => []
      case Present(kids) => Flatten(kids)
  }

  /** flattenSidebar as a definition: the entries of the items in order. */
  function Flatten(items: seq<SidebarItem>): seq<FlatItem>
    decreases items
  {
    if |items| == 0 then [] else FlattenItem(items[0]) + Flatten(items[1..])
  }

  lemma {:induction false} FlattenConcat(a: seq<SidebarItem>, b: seq<SidebarItem>)
    ensures Flatten(a + b) == Flatten(a) + Flatten(b)
    decreases |a|
  {
    if |a| == 0 {
      assert a + b == b;
    } else {
      assert Flatten(a + b) == FlattenItem(a[0]) + Flatten(a[1..] + b) by {
        assert (a + b)[0] == a[0];
        assert (a + b)[1..] == a[1..] + b;
      }
      FlattenConcat(a[1..], b);
      AppendAssoc(FlattenItem(a[0]), Flatten(a[1..]), Flatten(b));
    }
  }

  lemma FlattenSingle(item: SidebarItem)
    ensures Flatten([item]) == FlattenItem(item)
  {
    assert [item][1..] == [];
  }

  lemma FlattenSnoc(items: seq<SidebarItem>, i: nat)
    requires i < |items|
    ensures Flatten(items[..i + 1]) == Flatten(items[..i]) + FlattenItem(items[i])
  {
    assert items[..i + 1] == items[..i] + [items[i]];
    FlattenConcat(items[..i], [items[i]]);
    FlattenSingle(items[i]);
  }

  /**
   * flattenSidebar: an item precedes its descendants, siblings keep their
   * order, and an item without a link still contributes its children.
   */
  method FlattenSidebar(items: seq<SidebarItem>) returns (flat: seq<FlatItem>)
    ensures flat == Flatten(items)
    decreases items
  {
    flat := [];
    for i := 0 to |items|
      invariant flat == Flatten(items[..i])
    {
      var item := items[i];
      FlattenSnoc(items, i);
      ghost var before := flat;
      if Truthy(item.slug) || Truthy(item.href) {
        flat := flat + [FlatItem(item.text, if Truthy(item.href) then item.href.value else "/docs/" + item.slug.value)];
      }
      assert flat == before + OwnEntry(item);
      assert item in items;
      assert item.items < item;
      FlattenItemParts(item);
      if item.items.Present? {
        var sub := FlattenSidebar(item.items.entries);
        AppendAssoc(before, OwnEntry(item), sub);
        flat := flat + sub;
      } else {
        assert flat == before + OwnEntry(item) + [];
      }
    }
    assert items[..|items|] == items;
  }

  /** An item's entries: its own, then its children's when it has children. */
  lemma FlattenItemParts(item: SidebarItem)
    ensures FlattenItem(item) == OwnEntry(item) + (if item.items.Present? then Flatten(item.items.entries) else [])
  {
    match item.items {
      case Absent => assert FlattenItem(item) == OwnEntry(item) + [];
      case Present(kids) =>
    }
  }

  /**
   * The pre-order law: the entries of a listing are those before an item,
   * then the item's own, then its descendants', then those after it.
   */
  lemma PreOrder(before: seq<SidebarItem>, item: SidebarItem, after: seq<SidebarItem>)
    ensures Flatten(before + [item] + after)
            == Flatten(before) + OwnEntry(item)
               + (if item.items.Present? then Flatten(item.items.entries) else [])
               + Flatten(after)
  {
    var x := Flatten(before);
    var y := FlattenItem(item);
    var z := Flatten(after);
    assert Flatten(before + [item] + after) == x + y + z by {
      FlattenConcat(before + [item], after);
      FlattenConcat(before, [item]);
      FlattenSingle(item);
    }
    var c := if item.items.Present? then Flatten(item.items.entries) else [];
    assert y == OwnEntry(item) + c by {
      match item.items {
        case Absent => assert y == OwnEntry(item) + [];
        case Present(kids) =>
      }
    }
    Regroup(x, OwnEntry(item), c, z);
  }

  lemma Regroup<T>(x: seq<T>, o: seq<T>, c: seq<T>, z: seq<T>)
    ensures x + (o + c) + z == x + o + c + z
  {
  }

  /** An item makes an entry exactly when the sidebar gives it a link, and with the same href. */
  lemma OwnEntryIsSidebarLink(item: SidebarItem)
    ensures OwnEntry(item) == if ItemHref(item).Some? then [FlatItem(item.text, ItemHref(item).value)] else []
  {
  }

  function Hrefs(flat: seq<FlatItem>): (r: seq<string>)
    ensures |r| == |flat| && forall i :: 0 <= i < |flat| ==> r[i] == flat[i].href
  {
    seq(|flat|, i requires 0 <= i < |flat| => flat[i].href)
  }

  lemma HrefsConcat(a: seq<FlatItem>, b: seq<FlatItem>)
    ensures Hrefs(a + b) == Hrefs(a) + Hrefs(b)
  {
  }

  /** The previous/next order is the order of the links the sidebar draws. */
  lemma {:induction false} FlattenFollowsSidebar(items: seq<SidebarItem>)
    ensures Hrefs(Flatten(items)) == ConfigLinks(items)
    decreases items
  {
    if |items| > 0 {
      FlattenItemFollowsSidebar(items[0]);
      FlattenFollowsSidebar(items[1..]);
      HrefsConcat(FlattenItem(items[0]), Flatten(items[1..]));
    }
  }

  lemma {:induction false} FlattenItemFollowsSidebar(item: SidebarItem)
    ensures Hrefs(FlattenItem(item)) == ConfigItemLinks(item)
    decreases item
  {
    OwnEntryIsSidebarLink(item);
    match item.items {
      case Absent =>
        assert FlattenItem(item) == OwnEntry(item) + [];
      case Present(kids) =>
        FlattenFollowsSidebar(kids);
        HrefsConcat(OwnEntry(item), Flatten(kids));
    }
  }

  // ---------------------------------------------------------------------------
  // All groups, the current page and its neighbours
  // ---------------------------------------------------------------------------

  /** The entries of every group, in group order. */
  function GroupItems(groups: seq<SidebarGroup>): seq<FlatItem>
    decreases |groups|
  {
    if |groups| == 0 then [] else GroupItems(groups[..|groups| - 1]) + Flatten(groups[|groups| - 1].items)
  }

  /** `sidebarConfig || []`, flattened group by group. */
  function AllItems(sidebarConfig: Option<seq<SidebarGroup>>): seq<FlatItem> {
    GroupItems(sidebarConfig.GetOr([]))
  }

  /** The loop over the groups in PrevNextNav. */
  method CollectItems(sidebarConfig: Option<seq<SidebarGroup>>) returns (allItems: seq<FlatItem>)
    ensures allItems == AllItems(sidebarConfig)
  {
    var sidebar := if sidebarConfig.Some? then sidebarConfig.value else [];
    allItems := [];
    for i := 0 to |sidebar|
      invariant allItems == GroupItems(sidebar[..i])
    {
      var flat := FlattenSidebar(sidebar[i].items);
      assert sidebar[..i + 1][..i] == sidebar[..i];
      allItems := allItems + flat;
    }
    assert sidebar[..|sidebar|] == sidebar;
  }

  /** `findIndex` on the href: the first entry pointing at the page, if any. */
  function FindIndex(all: seq<FlatItem>, pathname: string): (r: Option<nat>)
    ensures r.Some? ==> r.value < |all| && all[r.value].href == pathname
    ensures r.Some? ==> forall j :: 0 <= j < r.value ==> all[j].href != pathname
    ensures r.None? ==> forall j :: 0 <= j < |all| ==> all[j].href != pathname
    decreases |all|
  {
    if |all| == 0 then None
    else if all[0].href == pathname then Some(0)
    else match FindIndex(all[1..], pathname)
      case None => None
      case Some(i) => Some(i + 1)
  }

  datatype Neighbours = Neighbours(prev: Option<FlatItem>, next: Option<FlatItem>)

  /** What PrevNextNav renders: nothing, or the neighbours of the current page. */
  function PrevNextOf(all: seq<FlatItem>, pathname: string): Option<Neighbours> {
    match FindIndex(all, pathname)
    case None => None
    case Some(i) =>
      var prev := if i > 0 then Some(all[i - 1]) else None;
      var next := if i < |all| - 1 then Some(all[i + 1]) else None;
      if prev.None? && next.None? then None else Some(Neighbours(prev, next))
  }

  /**
   * Nothing is rendered exactly when the page is not in the list or is its
   * only entry; otherwise prev is the entry before the page's first
   * occurrence when there is one, and next the entry after it.
   */
  lemma PrevNextRule(all: seq<FlatItem>, pathname: string)
    ensures PrevNextOf(all, pathname).None? <==> FindIndex(all, pathname).None? || |all| == 1
    ensures PrevNextOf(all, pathname).Some? ==>
      var i := FindIndex(all, pathname).value;
      var n := PrevNextOf(all, pathname).value;
      (n.prev.Some? <==> i > 0) && (n.prev.Some? ==> n.prev.value == all[i - 1])
      && (n.next.Some? <==> i < |all| - 1) && (n.next.Some? ==> n.next.value == all[i + 1])
  {
  }

  predicate DistinctHrefs(all: seq<FlatItem>) {
    forall i, j :: 0 <= i < j < |all| ==> all[i].href != all[j].href
  }

  /** With distinct hrefs, moving to the next page and back returns: each entry's next has it as prev. */
  lemma NextThenPrev(all: seq<FlatItem>, i: nat)
    requires DistinctHrefs(all) && i + 1 < |all|
    ensures PrevNextOf(all, all[i].href).Some? && PrevNextOf(all, all[i].href).value.next == Some(all[i + 1])
    ensures PrevNextOf(all, all[i + 1].href).Some? && PrevNextOf(all, all[i + 1].href).value.prev == Some(all[i])
  {
    assert FindIndex(all, all[i].href) == Some(i);
    assert FindIndex(all, all[i + 1].href) == Some(i + 1);
  }
}
