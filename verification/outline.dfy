/**
 * The outline resolver of `PdfExtractor`: a pre-order walk over the document's
 * outline (bookmark) tree that maps each page an outline entry points at to the
 * entry's chapter / heading / subheading path.
 *
 * PDFBox's outline, action, destination and page-tree objects are replaced by
 * plain datatypes: a page is an opaque `PageId`, the page tree is the sequence
 * of those ids in document order, and the two name dictionaries are maps from
 * destination name to destination.
 */
module Outline {
  import opened Wrappers
  import opened JavaText

  /** An opaque page object (`PDPage`), compared by identity. */
  datatype PageId = PageId(id: nat)

  /** `PDDestination`: an explicit page, a name to look up, or another kind. */
  datatype Destination =
    | PageDestination(page: PageId)
    | NamedDestination(name: string)
    | OtherDestination

  /** `PDAction`: only a GoTo action carries a (possibly null) destination. */
  datatype Action = GoTo(target: Option<Destination>) | OtherAction

  /** `PDOutlineItem`: the sibling chain of PDFBox becomes a sequence of children. */
  datatype OutlineItem = OutlineItem(
    title: Option<string>,
    destination: Option<Destination>,
    action: Option<Action>,
    children: seq<OutlineItem>)

  /**
   * What the walk needs of a `PDDocument`: its page tree, the catalog's /Dests
   * dictionary, the /Names dictionary's Dests tree (absent when either the
   * /Names dictionary or its Dests entry is missing) and the outline's
   * top-level items (absent when the document has no outline).
   */
  datatype Document = Document(
    pages: seq<PageId>,
    catalogDests: Option<map<string, Destination>>,
    nameTreeDests: Option<map<string, Destination>>,
    outline: Option<seq<OutlineItem>>)

  /** The `String[3]` stored per page: chapter, heading, subheading, each possibly null. */
  datatype Hierarchy = Hierarchy(chapter: Option<string>, heading: Option<string>, subheading: Option<string>)

  /** The all-null hierarchy the chunker starts from. */
  const NoHierarchy: Hierarchy := Hierarchy(None, None, None)

  /** The title path from the root to an item; null titles stay null. */
  type TitlePath = seq<Option<string>>

  // ---------------------------------------------------------------------------
  // Destination resolution
  // ---------------------------------------------------------------------------

  /** `PDPageTree.indexOf`: the position of the first occurrence of `p`, or -1. */
  function IndexOf(pages: seq<PageId>, p: PageId): (r: int)
    ensures -1 <= r < |pages|
    ensures r >= 0 ==> pages[r] == p && forall k :: 0 <= k < r ==> pages[k] != p
    ensures r == -1 <==> p !in pages
  {
    if |pages| == 0 then -1
    else if pages[0] == p then 0
    else
      var k := IndexOf(pages[1..], p);
      if k == -1 then -1 else k + 1
  }

  /** A page destination resolves to its 1-based position, which is 0 for a page outside the tree. */
  function PageNumberOf(doc: Document, p: PageId): (r: int)
    ensures 0 <= r <= |doc.pages|
    ensures r == 0 <==> p !in doc.pages
    ensures r > 0 ==> doc.pages[r - 1] == p
  {
    IndexOf(doc.pages, p) + 1
  }

  /** The entry for `name` in an optional dictionary, null when the dictionary or the entry is missing. */
  function Lookup(dict: Option<map<string, Destination>>, name: string): Option<Destination> {
    if dict.Some? && name in dict.value then Some(dict.value[name]) else None
  }

  /**
   * `resolveNamedDestination`: the catalog's /Dests first, then the name tree,
   * and only when both miss, the name itself read as a page number in
   * 1..numberOfPages. A dictionary hit that is not a page destination yields null.
   */
  function ResolveNamed(doc: Document, name: string): (r: Option<int>)
    ensures r.Some? ==> 0 <= r.value <= |doc.pages|
    ensures Lookup(doc.catalogDests, name).Some? ==>
      r == (match Lookup(doc.catalogDests, name).value
            case PageDestination(p) => Some(PageNumberOf(doc, p))
            case _ => None)
    ensures Lookup(doc.catalogDests, name).None? && Lookup(doc.nameTreeDests, name).Some? ==>
      r == (match Lookup(doc.nameTreeDests, name).value
            case PageDestination(p) => Some(PageNumberOf(doc, p))
            case _ => None)
    ensures Lookup(doc.catalogDests, name).None? && Lookup(doc.nameTreeDests, name).None? ==>
      (r.Some? <==> ParseInt(name).Some? && 1 <= ParseInt(name).value <= |doc.pages|) &&
      (r.Some? ==> r.value == ParseInt(name).value)
  {
    var fromCatalog := Lookup(doc.catalogDests, name);
    var resolved := if fromCatalog.None? then Lookup(doc.nameTreeDests, name) else fromCatalog;
    if resolved.None? then
      match ParseInt(name)
      case Some(n) => if 0 < n <= |doc.pages| then Some(n) else None
      case None => None
    else
      match resolved.value
      case PageDestination(p) => Some(PageNumberOf(doc, p))
      case _ => None
  }

  /** A destination object as `resolveDestination` treats it: pages and names resolve, anything else is null. */
  function ResolveTarget(doc: Document, d: Option<Destination>): (r: Option<int>)
    ensures r.Some? ==> 0 <= r.value <= |doc.pages|
  {
    match d
    case Some(PageDestination(p)) => Some(PageNumberOf(doc, p))
    case Some(NamedDestination(n)) => ResolveNamed(doc, n)
    case _ => None
  }

  /**
   * `resolveDestination`: the item's own destination when it has one; only when
   * it is null is the action consulted, and only a GoTo action is followed.
   */
  function ResolveDestination(doc: Document, item: OutlineItem): (r: Option<int>)
    ensures r.Some? ==> 0 <= r.value <= |doc.pages|
    ensures item.destination.Some? ==> r == ResolveTarget(doc, item.destination)
    ensures item.destination.None? && (item.action.None? || item.action.value.OtherAction?) ==> r.None?
  {
    if item.destination.None? then
      if item.action.Some? && item.action.value.GoTo? then ResolveTarget(doc, item.action.value.target)
      else None
    else ResolveTarget(doc, item.destination)
  }

  /** A non-null destination makes the item's action irrelevant. */
  lemma ActionIgnoredWithDestination(doc: Document, item: OutlineItem, other: Option<Action>)
    requires item.destination.Some?
    ensures ResolveDestination(doc, item.(action := other)) == ResolveDestination(doc, item)
  {
  }

  /** A GoTo action behaves exactly like the same destination stored on the item. */
  lemma GoToActsAsDestination(doc: Document, item: OutlineItem, d: Destination)
    requires item.destination.None? && item.action == Some(GoTo(Some(d)))
    ensures ResolveDestination(doc, item) == ResolveDestination(doc, item.(destination := Some(d)))
  {
  }

  /** A numeric name inside the page range resolves to that page when neither dictionary knows it. */
  lemma NumericNameResolves(doc: Document, n: int)
    requires 1 <= n <= |doc.pages| && n <= INT_MAX
    requires Lookup(doc.catalogDests, IntToString(n)).None?
    requires Lookup(doc.nameTreeDests, IntToString(n)).None?
    ensures ResolveNamed(doc, IntToString(n)) == Some(n)
  {
    ParseIntRoundTrip(n);
  }

  // ---------------------------------------------------------------------------
  // The outline walk
  // ---------------------------------------------------------------------------

  /** Slot `i` of the stored array: the i-th title of the path, or null past its end. */
  function Slot(path: TitlePath, i: nat): Option<string> {
    if i < |path| then path[i] else None
  }

  /** The path truncated or padded to exactly three slots. */
  function HierarchyOf(path: TitlePath): (h: Hierarchy)
    ensures h.chapter == Slot(path, 0) && h.heading == Slot(path, 1) && h.subheading == Slot(path, 2)
  {
    Hierarchy(Slot(path, 0), Slot(path, 1), Slot(path, 2))
  }

  /** Titles deeper than the third level do not reach the stored hierarchy. */
  lemma DeepTitlesDropped(path: TitlePath, deeper: TitlePath)
    requires |path| >= 3
    ensures HierarchyOf(path + deeper) == HierarchyOf(path)
  {
  }

  /** A path of at most three titles is stored whole, with null padding after it. */
  lemma ShallowPathKept(path: TitlePath)
    requires |path| <= 3
    ensures HierarchyOf(path) == HierarchyOf(path + seq(3 - |path|, _ => None))
    ensures forall i :: 0 <= i < |path| ==> Slot(path, i) == path[i]
  {
  }

  /** Records one item: a resolved page gets the item's hierarchy, overwriting any earlier entry. */
  function Record(doc: Document, item: OutlineItem, path: TitlePath, acc: map<int, Hierarchy>): (r: map<int, Hierarchy>)
    ensures ResolveDestination(doc, item).None? ==> r == acc
    ensures ResolveDestination(doc, item).Some? ==>
      r == acc[ResolveDestination(doc, item).value := HierarchyOf(path)]
  {
    match ResolveDestination(doc, item)
    case Some(p) => acc[p := HierarchyOf(path)]
    case None => acc
  }

  /**
   * `processOutlineItemHierarchy`: for each sibling in order, extend the parent
   * path with its title, record it, descend into its children with the
   * extended path, then move to the next sibling.
   */
  function Walk(doc: Document, items: seq<OutlineItem>, parentPath: TitlePath, acc: map<int, Hierarchy>): (r: map<int, Hierarchy>)
    ensures forall p :: p in r ==> p in acc || 0 <= p <= |doc.pages|
    ensures acc.Keys <= r.Keys
    decreases items
  {
    if |items| == 0 then acc
    else
      var item := items[0];
      var path := parentPath + [item.title];
      var recorded := Record(doc, item, path, acc);
      var afterChildren := if |item.children| > 0 then Walk(doc, item.children, path, recorded) else recorded;
      Walk(doc, items[1..], parentPath, afterChildren)
  }

  /** `extractOutlineHierarchy`: no outline gives an empty map; keys are page numbers in 0..numberOfPages. */
  function ExtractOutlineHierarchy(doc: Document): (r: map<int, Hierarchy>)
    ensures doc.outline.None? ==> r == map[]
    ensures forall p :: p in r ==> 0 <= p <= |doc.pages|
  {
    if doc.outline.None? then map[] else Walk(doc, doc.outline.value, [], map[])
  }

  /** An item whose page does not resolve still has its children visited with its path. */
  lemma UnresolvedItemStillVisitsChildren(doc: Document, item: OutlineItem, parentPath: TitlePath, acc: map<int, Hierarchy>)
    requires ResolveDestination(doc, item).None?
    ensures Walk(doc, [item], parentPath, acc) == Walk(doc, item.children, parentPath + [item.title], acc)
  {
    assert [item][1..] == [];
  }

  // ---------------------------------------------------------------------------
  // Reference definition: the walk is a fold over the pre-order visit list
  // ---------------------------------------------------------------------------

  /** One visit of the walk: an item together with its full title path. */
  datatype Visit = Visit(item: OutlineItem, path: TitlePath)

  /** Pre-order: an item, then its whole subtree, then its next sibling. */
  function Preorder(items: seq<OutlineItem>, parentPath: TitlePath): seq<Visit>
    decreases items
  {
    if |items| == 0 then []
    else
      var path := parentPath + [items[0].title];
      [Visit(items[0], path)] + Preorder(items[0].children, path) + Preorder(items[1..], parentPath)
  }

  /** Records every visit in order, the later ones overwriting the earlier. */
  function RecordAll(doc: Document, visits: seq<Visit>, acc: map<int, Hierarchy>): map<int, Hierarchy> {
    if |visits| == 0 then acc
    else
      var last := visits[|visits| - 1];
      Record(doc, last.item, last.path, RecordAll(doc, visits[..|visits| - 1], acc))
  }

  lemma {:induction false} RecordAllAppend(doc: Document, a: seq<Visit>, b: seq<Visit>, acc: map<int, Hierarchy>)
    ensures RecordAll(doc, a + b, acc) == RecordAll(doc, b, RecordAll(doc, a, acc))
    decreases |b|
  {
    if |b| == 0 {
      assert a + b == a;
    } else {
      assert (a + b)[..|a + b| - 1] == a + b[..|b| - 1];
      RecordAllAppend(doc, a, b[..|b| - 1], acc);
    }
  }

  /** The walk is exactly the pre-order visit list, recorded in order. */
  lemma {:induction false} WalkIsPreorder(doc: Document, items: seq<OutlineItem>, parentPath: TitlePath, acc: map<int, Hierarchy>)
    ensures Walk(doc, items, parentPath, acc) == RecordAll(doc, Preorder(items, parentPath), acc)
    decreases items
  {
    if |items| > 0 {
      var item := items[0];
      var path := parentPath + [item.title];
      var head := [Visit(item, path)];
      var sub := Preorder(item.children, path);
      var rest := Preorder(items[1..], parentPath);
      var recorded := Record(doc, item, path, acc);
      assert RecordAll(doc, head, acc) == recorded by {
        assert head[..0] == [];
      }
      WalkIsPreorder(doc, item.children, path, recorded);
      var afterChildren := if |item.children| > 0 then Walk(doc, item.children, path, recorded) else recorded;
      assert afterChildren == RecordAll(doc, sub, recorded);
      WalkIsPreorder(doc, items[1..], parentPath, afterChildren);
      RecordAllAppend(doc, head, sub, acc);
      RecordAllAppend(doc, head + sub, rest, acc);
    }
  }

  /** Where visit `i` resolves, or nothing. */
  function TargetOf(doc: Document, v: Visit): Option<int> {
    ResolveDestination(doc, v.item)
  }

  /** A page is mapped exactly when some visit resolves to it. */
  lemma {:induction false} RecordAllKeys(doc: Document, visits: seq<Visit>, p: int)
    ensures p in RecordAll(doc, visits, map[]) <==> exists i :: 0 <= i < |visits| && TargetOf(doc, visits[i]) == Some(p)
  {
    if |visits| > 0 {
      var n := |visits| - 1;
      var init := visits[..n];
      RecordAllKeys(doc, init, p);
      assert forall i :: 0 <= i < n ==> init[i] == visits[i];
    }
  }

  /** Last write wins: the page keeps the hierarchy of the last visit resolving to it. */
  lemma {:induction false} RecordAllLastWriteWins(doc: Document, visits: seq<Visit>, p: int, i: nat)
    requires i < |visits| && TargetOf(doc, visits[i]) == Some(p)
    requires forall j :: i < j < |visits| ==> TargetOf(doc, visits[j]) != Some(p)
    ensures p in RecordAll(doc, visits, map[])
    ensures RecordAll(doc, visits, map[])[p] == HierarchyOf(visits[i].path)
  {
    var n := |visits| - 1;
    if i < n {
      var init := visits[..n];
      assert TargetOf(doc, visits[n]) != Some(p);
      assert forall j :: i < j < n ==> init[j] == visits[j];
      RecordAllLastWriteWins(doc, init, p, i);
    }
  }

  /** `extractOutlineHierarchy` maps a page exactly when some pre-order item resolves to it. */
  lemma ExtractKeys(doc: Document, p: int)
    requires doc.outline.Some?
    ensures p in ExtractOutlineHierarchy(doc) <==>
      exists i :: 0 <= i < |Preorder(doc.outline.value, [])| && TargetOf(doc, Preorder(doc.outline.value, [])[i]) == Some(p)
  {
    WalkIsPreorder(doc, doc.outline.value, [], map[]);
    RecordAllKeys(doc, Preorder(doc.outline.value, []), p);
  }

  /** ... and maps it to the hierarchy of the last item, in pre-order, resolving to it. */
  lemma ExtractIsLastWrite(doc: Document, p: int, i: nat)
    requires doc.outline.Some?
    requires i < |Preorder(doc.outline.value, [])|
    requires TargetOf(doc, Preorder(doc.outline.value, [])[i]) == Some(p)
    requires forall j :: i < j < |Preorder(doc.outline.value, [])| ==> TargetOf(doc, Preorder(doc.outline.value, [])[j]) != Some(p)
    ensures p in ExtractOutlineHierarchy(doc)
    ensures ExtractOutlineHierarchy(doc)[p] == HierarchyOf(Preorder(doc.outline.value, [])[i].path)
  {
    WalkIsPreorder(doc, doc.outline.value, [], map[]);
    RecordAllLastWriteWins(doc, Preorder(doc.outline.value, []), p, i);
  }
}
