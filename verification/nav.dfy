/**
 * `Nav`: the side navigation. Home is pinned first, the other entries
 * follow longest name first with an alphabetical tie-break, and an entry is
 * highlighted when the current path falls under its address.
 */
module Nav {
  import opened Wrappers
  import opened Strings
  import opened Seqs
  import opened StableSort

  datatype SubItem = SubItem(name: string, href: string)

  datatype NavItem = NavItem(name: string, href: string, subItems: seq<SubItem>)

  const HomeHref: string := "/"

  /** `baseNavItems`, without the icons. */
  const BaseNavItems: seq<NavItem> := [
    NavItem("Home", "/", [SubItem("Projects", "/#projects"), SubItem("Skills", "/#skills")]),
    NavItem("Software", "/software", []),
    NavItem("Blog", "/blog", []),
    NavItem("Cooking", "/cooking", [])
  ]

  /** The path part of an address: everything before the first `#`. */
  function PathPart(href: string): (p: string)
    ensures StartsWith(href, p) && '#' !in p
    ensures |p| < |href| ==> href[|p|] == '#'
  {
    var parts := Split(href, '#');
    assert parts[0] in parts;
    if |parts| == 1 then
      assert Join(parts, "#") == parts[0];
      parts[0]
    else
      assert Join(parts, "#") == parts[0] + "#" + Join(parts[1..], "#");
      parts[0]
  }

  /** `PathPart` cuts at the first `#`, as `indexOf` finds it. */
  lemma PathPartIsBeforeFirstHash(href: string)
    ensures IndexOf(href, "#").None? ==> PathPart(href) == href
    ensures IndexOf(href, "#").Some? ==> PathPart(href) == href[..IndexOf(href, "#").value]
  {
    var p := PathPart(href);
    if |p| < |href| {
      assert OccursAt(href, "#", |p|) by {
        assert href[|p|..|p| + 1] == [href[|p|]];
      }
    } else {
      assert p == href;
    }
  }

  /** `isActive`: home only on `"/"` itself, any other entry on every path under its path part. */
  function IsActive(pathname: string, href: string): (r: bool)
    ensures href == HomeHref ==> (r <==> pathname == HomeHref)
    ensures href != HomeHref ==> (r <==> StartsWith(pathname, PathPart(href)))
  {
    if href == HomeHref then pathname == HomeHref else StartsWith(pathname, PathPart(href))
  }

  /** A path under an entry's address keeps that entry active. */
  lemma ActiveUnderPath(pathname: string, suffix: string, href: string)
    requires href != HomeHref && IsActive(pathname, href)
    ensures IsActive(pathname + suffix, href)
  {
    var p := PathPart(href);
    assert (pathname + suffix)[..|p|] == pathname[..|p|];
  }

  /** `array.find(i => i.href === "/")`. */
  function FindHome(items: seq<NavItem>): (r: Option<NavItem>)
    ensures r.Some? ==> r.value in items && r.value.href == HomeHref
    ensures r.Some? ==> forall i :: 0 <= i < FirstIndex(items, r.value) ==> items[i].href != HomeHref
    ensures r.None? ==> forall i :: 0 <= i < |items| ==> items[i].href != HomeHref
  {
    if items == [] then None
    else if items[0].href == HomeHref then Some(items[0])
    else
      var r := FindHome(items[1..]);
      FirstIndexTail(items, r);
      r
  }

  lemma FirstIndexTail(items: seq<NavItem>, r: Option<NavItem>)
    requires items != [] && items[0].href != HomeHref
    requires r.Some? ==> r.value.href == HomeHref && r.value in items[1..] && forall i :: 0 <= i < FirstIndex(items[1..], r.value) ==> items[1..][i].href != HomeHref
    ensures r.Some? ==> r.value in items && forall i :: 0 <= i < FirstIndex(items, r.value) ==> items[i].href != HomeHref
  {
    if r.Some? {
      assert r.value in items && FirstIndex(items, r.value) == 1 + FirstIndex(items[1..], r.value);
      forall i | 1 <= i < FirstIndex(items, r.value) ensures items[i].href != HomeHref {
        assert items[i] == items[1..][i - 1];
      }
    }
  }

  predicate NotHome(i: NavItem) {
    i.href != HomeHref
  }

  function CodePoints(s: string): (r: seq<int>)
    ensures |r| == |s| && forall k :: 0 <= k < |s| ==> r[k] == s[k] as int
  {
    seq(|s|, k requires 0 <= k < |s| => s[k] as int)
  }

  /** The comparator of `rest.sort` as a key: longer names first, then by code points. */
  function NameKey(i: NavItem): seq<int> {
    [-|i.name|] + CodePoints(i.name)
  }

  /** Alphabetical order of names: code-point order, standing in for `localeCompare`. */
  predicate NameLe(a: string, b: string) {
    KeyLe(CodePoints(a), CodePoints(b))
  }

  /** The order the comparator asks for between two entries. */
  predicate LongerFirst(a: NavItem, b: NavItem) {
    |a.name| > |b.name| || (|a.name| == |b.name| && NameLe(a.name, b.name))
  }

  lemma NameKeyOrder(a: NavItem, b: NavItem)
    ensures KeyLe(NameKey(a), NameKey(b)) <==> LongerFirst(a, b)
  {
    assert NameKey(a)[1..] == CodePoints(a.name) && NameKey(b)[1..] == CodePoints(b.name);
  }

  predicate AtMostOneHome(items: seq<NavItem>) {
    forall i, j :: 0 <= i < j < |items| && items[i].href == HomeHref ==> items[j].href != HomeHref
  }

  /**
   * `sortedItems`: the home entry (the first with address `"/"`) followed by
   * the other entries, longest name first and alphabetical among equal lengths.
   */
  function SortedItems(items: seq<NavItem>): seq<NavItem> {
    var home := FindHome(items);
    if home.Some? then [home.value] + Others(items) else Others(items)
  }

  /** `rest.sort(...)`: the entries whose address is not `"/"`, stably sorted by the comparator. */
  function Others(items: seq<NavItem>): seq<NavItem> {
    Sort(Filter(items, NotHome), NameKey)
  }

  /** The entries shown: every entry that is not a home entry, and the home entry `find` picks. */
  lemma SortedItemsMembers(items: seq<NavItem>)
    ensures forall x :: x in SortedItems(items) <==> x in items && (x.href != HomeHref || Some(x) == FindHome(items))
  {
    OthersSorted(items);
  }

  /**
   * The home entry, when there is one, leads; after it no entry has address
   * `"/"` and each pair is in the comparator's order.
   */
  lemma SortedItemsOrder(items: seq<NavItem>)
    ensures FindHome(items).Some? ==> SortedItems(items) != [] && SortedItems(items)[0] == FindHome(items).value
    ensures var r := SortedItems(items);
      var rest := if FindHome(items).Some? then r[1..] else r;
      forall i, j :: 0 <= i < j < |rest| ==> rest[i].href != HomeHref && LongerFirst(rest[i], rest[j])
  {
    OthersSorted(items);
    if FindHome(items).Some? {
      assert SortedItems(items)[1..] == Others(items);
    }
  }

  /** With at most one home entry, the menu is a rearrangement of the entries: nothing lost, nothing repeated. */
  lemma SortedItemsPermutation(items: seq<NavItem>)
    requires AtMostOneHome(items)
    ensures multiset(SortedItems(items)) == multiset(items)
  {
    HomeAndOthers(items);
    var home := FindHome(items);
    if home.Some? {
      assert multiset(SortedItems(items)) == multiset(Others(items)) + HomeBag(home);
    }
  }

  /** The sorted non-home entries: exactly those entries, in the comparator's order. */
  lemma OthersSorted(items: seq<NavItem>)
    ensures var rest := Others(items);
      && (forall x :: x in rest <==> x in items && x.href != HomeHref)
      && (forall i, j :: 0 <= i < j < |rest| ==> rest[i].href != HomeHref && LongerFirst(rest[i], rest[j]))
  {
    var others := Filter(items, NotHome);
    var rest := Sort(others, NameKey);
    forall x ensures x in rest <==> x in others {
      assert x in rest <==> x in multiset(rest);
      assert x in others <==> x in multiset(others);
    }
    forall i, j | 0 <= i < j < |rest| ensures rest[i].href != HomeHref && LongerFirst(rest[i], rest[j]) {
      assert rest[i] in rest;
      NameKeyOrder(rest[i], rest[j]);
    }
  }

  predicate IsHome(i: NavItem) {
    i.href == HomeHref
  }

  /** The home entry, if one was found, as a multiset. */
  function HomeBag(home: Option<NavItem>): multiset<NavItem> {
    if home.Some? then multiset{home.value} else multiset{}
  }

  /** With at most one home entry, it and the other entries are all the entries. */
  lemma HomeAndOthers(items: seq<NavItem>)
    requires AtMostOneHome(items)
    ensures multiset(Filter(items, NotHome)) + HomeBag(FindHome(items)) == multiset(items)
  {
    FilterPartition(items, NotHome, IsHome);
    HomeEntries(items);
  }

  /** With at most one home entry, the home entries are just the one `find` returns. */
  lemma {:induction false} HomeEntries(items: seq<NavItem>)
    requires AtMostOneHome(items)
    ensures Filter(items, IsHome) == if FindHome(items).Some? then [FindHome(items).value] else []
  {
    if items != [] {
      var tail := items[1..];
      if items[0].href == HomeHref {
        forall i | 0 <= i < |tail| ensures !IsHome(tail[i]) {
          assert tail[i] == items[i + 1];
        }
        FilterNone(tail, IsHome);
      } else {
        assert AtMostOneHome(tail) by {
          forall i, j | 0 <= i < j < |tail| && tail[i].href == HomeHref
            ensures tail[j].href != HomeHref
          {
            assert items[i + 1] == tail[i] && items[j + 1] == tail[j];
          }
        }
        HomeEntries(tail);
      }
    }
  }

  function Names(items: seq<NavItem>): (r: seq<string>)
    ensures |r| == |items| && forall i :: 0 <= i < |r| ==> r[i] == items[i].name
  {
    seq(|items|, i requires 0 <= i < |items| => items[i].name)
  }

  /** For the site's own entries the order is Home, Software, Cooking, Blog. */
  lemma BaseOrder()
    ensures Names(SortedItems(BaseNavItems)) == ["Home", "Software", "Cooking", "Blog"]
  {
    var items := BaseNavItems;
    BaseHome();
    BaseOthers();
    BaseSort();
    HomeThenSorted(items, items[0], [items[1], items[3], items[2]]);
    BaseNames(SortedItems(items));
  }

  lemma HomeThenSorted(items: seq<NavItem>, home: NavItem, sorted: seq<NavItem>)
    requires FindHome(items) == Some(home) && Sort(Filter(items, NotHome), NameKey) == sorted
    ensures SortedItems(items) == [home] + sorted
  {
  }

  lemma BaseNames(r: seq<NavItem>)
    requires r == [BaseNavItems[0]] + [BaseNavItems[1], BaseNavItems[3], BaseNavItems[2]]
    ensures Names(r) == ["Home", "Software", "Cooking", "Blog"]
  {
  }

  lemma BaseHome()
    ensures FindHome(BaseNavItems) == Some(BaseNavItems[0])
  {
  }

  lemma BaseOthers()
    ensures Filter(BaseNavItems, NotHome) == BaseNavItems[1..]
  {
    var items := BaseNavItems;
    assert items[1..][1..] == [items[2], items[3]];
    assert items[1..][1..][1..] == [items[3]];
  }

  lemma BaseSort()
    ensures Sort(BaseNavItems[1..], NameKey) == [BaseNavItems[1], BaseNavItems[3], BaseNavItems[2]]
  {
    var items := BaseNavItems;
    assert items[1..] == [items[1], items[2], items[3]];
    SortThree(items[1], items[2], items[3]);
  }

  /** Three entries of name lengths 8, 4 and 7 sort as the first, the third, the second. */
  lemma SortThree(a: NavItem, b: NavItem, c: NavItem)
    requires |a.name| == 8 && |b.name| == 4 && |c.name| == 7
    ensures Sort([a, b, c], NameKey) == [a, c, b]
  {
    SortCons(c, []);
    assert [c] + [] == [c];
    SortCons(b, [c]);
    assert [b] + [c] == [b, c];
    InsertLater(b, c);
    SortCons(a, [b, c]);
    assert [a] + [b, c] == [a, b, c];
    InsertFirst(a, [c, b]);
  }

  lemma SortCons(x: NavItem, xs: seq<NavItem>)
    ensures Sort([x] + xs, NameKey) == Insert(x, Sort(xs, NameKey), NameKey)
  {
    assert ([x] + xs)[1..] == xs;
  }

  lemma InsertLater(x: NavItem, y: NavItem)
    requires |x.name| < |y.name|
    ensures Insert(x, Sort([], NameKey), NameKey) == [x]
    ensures Insert(y, Sort([], NameKey), NameKey) == [y]
    ensures SortedBy([y], NameKey) && Insert(x, [y], NameKey) == [y, x]
  {
    assert NameKey(x)[0] > NameKey(y)[0];
    assert [y][1..] == [];
  }

  lemma InsertFirst(x: NavItem, xs: seq<NavItem>)
    requires xs != [] && SortedBy(xs, NameKey) && |x.name| > |xs[0].name|
    ensures Insert(x, xs, NameKey) == [x] + xs
  {
    assert NameKey(x)[0] < NameKey(xs[0])[0];
  }

  /**
   * The highlight test of a sub-entry as written: the path must equal the
   * sub-entry's address exactly.
   */
  function SubItemActive(pathname: string, sub: SubItem): (r: bool)
    ensures r ==> '#' in pathname || '#' !in sub.href
  {
    pathname == sub.href
  }

  /**
   * The home sub-entries point at fragments (`/#projects`, `/#skills`), and a
   * path as the router reports it has no fragment, so the exact test never
   * highlights them.
   */
  lemma HomeSubItemsNeverActive(pathname: string, k: nat)
    requires '#' !in pathname && k < |BaseNavItems[0].subItems|
    ensures !SubItemActive(pathname, BaseNavItems[0].subItems[k])
  {
    var sub := BaseNavItems[0].subItems[k];
    assert sub.href[1] == '#';
  }

  /**
   * The test with the location's fragment taken into account: a sub-entry is
   * active when the path is its path part and the fragment is the rest of
   * its address.
   */
  function SubItemActiveAt(pathname: string, hash: string, sub: SubItem): (r: bool)
    requires '#' !in pathname && (hash == "" || hash[0] == '#')
    ensures r <==> pathname == PathPart(sub.href) && hash == sub.href[|PathPart(sub.href)|..]
  {
    var p := PathPart(sub.href);
    assert sub.href == p + sub.href[|p|..];
    if pathname + hash == sub.href then
      assert pathname == p by {
        PrefixWithoutHash(pathname, hash, p, sub.href);
      }
      true
    else false
  }

  /** Two ways of writing `href` as a path followed by a fragment agree on the path. */
  lemma PrefixWithoutHash(pathname: string, hash: string, p: string, href: string)
    requires pathname + hash == href && '#' !in pathname && (hash == "" || hash[0] == '#')
    requires StartsWith(href, p) && '#' !in p && (|p| < |href| ==> href[|p|] == '#')
    ensures pathname == p
  {
    assert href[..|pathname|] == pathname;
  }

  /** With the fragment, `/#projects` is highlighted on the home page scrolled to it. */
  lemma ProjectsActiveAt()
    ensures SubItemActiveAt("/", "#projects", BaseNavItems[0].subItems[0])
  {
    var href := BaseNavItems[0].subItems[0].href;
    assert href[1] == '#' && href[0] != '#';
    var p := PathPart(href);
    assert |p| == 1;
  }
}
