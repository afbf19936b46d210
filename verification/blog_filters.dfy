/**
 * The filter and sort engine of the blog list (`BlogFilters`): a text
 * search over title and excerpt, the cooking facets "origin" and "type"
 * with their `"All"` sentinel, three sort orders, and the facet option
 * lists and sort labels the controls show.
 */
module BlogFilters {
  import opened Wrappers
  import opened Strings
  import opened Seqs
  import opened StableSort
  import opened PostTypes

  datatype SortOption = Newest | Oldest | MostViews

  datatype FilterControls = FilterControls(search: string, sortBy: SortOption, origin: string, kind: string)

  const AllSentinel: string := "All"

  /** The state the component starts in. */
  const InitialControls: FilterControls := FilterControls("", Newest, AllSentinel, AllSentinel)

  /** `field?.toLowerCase().includes(searchLower)`: a missing field never matches. */
  predicate FieldContains(field: Option<string>, needle: string) {
    field.Some? && Contains(ToLower(field.value), needle)
  }

  predicate MatchesSearch(search: string, p: Post) {
    var needle := ToLower(search);
    needle == "" || FieldContains(p.title, needle) || FieldContains(p.excerpt, needle)
  }

  /** A facet test: the sentinel passes everything, otherwise upper-cased equality. */
  predicate MatchesFacet(filter: string, value: Option<string>) {
    filter == AllSentinel || (value.Some? && ToUpper(value.value) == ToUpper(filter))
  }

  predicate Passes(c: FilterControls, p: Post) {
    MatchesSearch(c.search, p) && MatchesFacet(c.origin, p.origin) && MatchesFacet(c.kind, p.kind)
  }

  /** `b.views || 0`. */
  function ViewsOrZero(p: Post): int {
    if p.views.Some? then p.views.value else 0
  }

  /** The comparator of each sort option as a key: ascending keys, ties kept in order. */
  function SortKey(s: SortOption): Post -> seq<int> {
    match s
    case Oldest => (p: Post) => [p.date]
    case MostViews => (p: Post) => [-ViewsOrZero(p)]
    case Newest => NewestFirst
  }

  /** `filteredPosts`: the posts that pass every test, stably sorted by the chosen order. */
  function FilteredPosts(posts: seq<Post>, c: FilterControls): (r: seq<Post>)
    ensures multiset(r) == multiset(Filter(posts, p => Passes(c, p)))
    ensures forall p :: p in r <==> p in posts && Passes(c, p)
    ensures c.sortBy == Newest ==> forall i, j :: 0 <= i < j < |r| ==> r[i].date >= r[j].date
    ensures c.sortBy == Oldest ==> forall i, j :: 0 <= i < j < |r| ==> r[i].date <= r[j].date
    ensures c.sortBy == MostViews ==> forall i, j :: 0 <= i < j < |r| ==> ViewsOrZero(r[i]) >= ViewsOrZero(r[j])
  {
    var kept := Filter(posts, p => Passes(c, p));
    var r := Sort(kept, SortKey(c.sortBy));
    SameMembers(r, kept);
    SortedMeaning(r, c.sortBy);
    r
  }

  lemma SameMembers(r: seq<Post>, kept: seq<Post>)
    requires multiset(r) == multiset(kept)
    ensures forall p :: p in r <==> p in kept
  {
    forall p ensures p in r <==> p in kept {
      assert p in r <==> p in multiset(r);
      assert p in kept <==> p in multiset(kept);
    }
  }

  /** What being sorted by each option's key says about dates and view counts. */
  lemma SortedMeaning(r: seq<Post>, s: SortOption)
    requires SortedBy(r, SortKey(s))
    ensures s == Newest ==> forall i, j :: 0 <= i < j < |r| ==> r[i].date >= r[j].date
    ensures s == Oldest ==> forall i, j :: 0 <= i < j < |r| ==> r[i].date <= r[j].date
    ensures s == MostViews ==> forall i, j :: 0 <= i < j < |r| ==> ViewsOrZero(r[i]) >= ViewsOrZero(r[j])
  {
    match s
    case Newest =>
      NewestFirstSorted(r);
    case Oldest =>
      forall i, j | 0 <= i < j < |r| ensures r[i].date <= r[j].date {
        assert KeyLe(SortKey(s)(r[i]), SortKey(s)(r[j]));
        KeyLeSingleton(r[i].date, r[j].date);
      }
    case MostViews =>
      forall i, j | 0 <= i < j < |r| ensures ViewsOrZero(r[i]) >= ViewsOrZero(r[j]) {
        assert KeyLe(SortKey(s)(r[i]), SortKey(s)(r[j]));
        KeyLeSingleton(-ViewsOrZero(r[i]), -ViewsOrZero(r[j]));
      }
  }

  /** Posts that tie under the chosen order keep their input order. */
  lemma FilteredStable(posts: seq<Post>, c: FilterControls, k: seq<int>)
    ensures WithKey(FilteredPosts(posts, c), SortKey(c.sortBy), k)
      == WithKey(Filter(posts, p => Passes(c, p)), SortKey(c.sortBy), k)
  {
    SortStable(Filter(posts, p => Passes(c, p)), SortKey(c.sortBy), k);
  }

  /**
   * The result is determined: any ordering of the passing posts that is
   * sorted and keeps ties in input order is the result.
   */
  lemma FilteredUnique(posts: seq<Post>, c: FilterControls, ys: seq<Post>)
    requires SortedBy(ys, SortKey(c.sortBy))
    requires forall k :: WithKey(ys, SortKey(c.sortBy), k) == WithKey(Filter(posts, p => Passes(c, p)), SortKey(c.sortBy), k)
    ensures ys == FilteredPosts(posts, c)
  {
    StableSortIsSort(Filter(posts, p => Passes(c, p)), ys, SortKey(c.sortBy));
  }

  /** Filtering an already filtered list changes nothing. */
  lemma FilteredIdempotent(posts: seq<Post>, c: FilterControls)
    ensures FilteredPosts(FilteredPosts(posts, c), c) == FilteredPosts(posts, c)
  {
    var r := FilteredPosts(posts, c);
    FilterAll(r, p => Passes(c, p));
    SortSorted(r, SortKey(c.sortBy));
  }

  /** The initial controls pass every post: the list is all posts, newest first. */
  lemma InitialShowsAll(posts: seq<Post>)
    ensures multiset(FilteredPosts(posts, InitialControls)) == multiset(posts)
  {
    forall p | p in posts ensures Passes(InitialControls, p) {
      assert ToLower("") == "";
    }
    FilterAll(posts, p => Passes(InitialControls, p));
  }

  /** `posts.map(field).filter(Boolean)`: the present, non-empty values in order. */
  function TruthyValues(posts: seq<Post>, field: Post -> Option<string>): (vs: seq<string>)
    ensures forall v :: v in vs <==> v != "" && exists i :: 0 <= i < |posts| && field(posts[i]) == Some(v)
  {
    if posts == [] then []
    else
      var f := field(posts[0]);
      var rest := TruthyValues(posts[1..], field);
      assert forall i :: 0 <= i < |posts| - 1 ==> posts[1..][i] == posts[i + 1];
      (if f.Some? && f.value != "" then [f.value] else []) + rest
  }

  /** Values are collected post by post: order and repeats survive, as `map` and `filter` keep them. */
  lemma {:induction false} TruthyConcat(a: seq<Post>, b: seq<Post>, field: Post -> Option<string>)
    ensures TruthyValues(a + b, field) == TruthyValues(a, field) + TruthyValues(b, field)
  {
    if a != [] {
      assert (a + b)[0] == a[0];
      assert (a + b)[1..] == a[1..] + b;
      TruthyConcat(a[1..], b, field);
    } else {
      assert a + b == b;
    }
  }

  /** One post contributes its value when that is present and non-empty, and nothing otherwise. */
  lemma TruthySingle(p: Post, field: Post -> Option<string>)
    ensures TruthyValues([p], field) == if field(p).Some? && field(p).value != "" then [field(p).value] else []
  {
    assert [p][1..] == [];
  }

  /**
   * The options of a facet control (`origins`, `types`): none outside the
   * cooking list; otherwise `"All"` then every distinct present value, in
   * first-seen order.
   */
  function FacetOptions(posts: seq<Post>, isCooking: bool, field: Post -> Option<string>): (opts: seq<string>)
    ensures !isCooking ==> opts == []
    ensures isCooking ==> |opts| >= 1 && opts[0] == AllSentinel && NoDuplicates(opts[1..])
    ensures isCooking ==> forall v :: v in opts[1..] <==>
      v != "" && exists i :: 0 <= i < |posts| && field(posts[i]) == Some(v)
    ensures isCooking ==> forall i, j :: 1 <= i < j < |opts| ==>
      opts[i] in TruthyValues(posts, field) && opts[j] in TruthyValues(posts, field) &&
      FirstIndex(TruthyValues(posts, field), opts[i]) < FirstIndex(TruthyValues(posts, field), opts[j])
  {
    if !isCooking then []
    else
      var d := Distinct(TruthyValues(posts, field));
      var opts := [AllSentinel] + d;
      assert opts[1..] == d;
      opts
  }

  function Origins(posts: seq<Post>, isCooking: bool): seq<string> {
    FacetOptions(posts, isCooking, (p: Post) => p.origin)
  }

  function Types(posts: seq<Post>, isCooking: bool): seq<string> {
    FacetOptions(posts, isCooking, (p: Post) => p.kind)
  }

  /** `isCooking && options.length > 1`: whether a facet control is rendered. */
  predicate ShowFacet(isCooking: bool, opts: seq<string>) {
    isCooking && |opts| > 1
  }

  /** A facet control appears exactly on the cooking list when some post has a value for it. */
  lemma FacetShown(posts: seq<Post>, isCooking: bool, field: Post -> Option<string>)
    ensures ShowFacet(isCooking, FacetOptions(posts, isCooking, field)) <==>
      isCooking && exists i :: 0 <= i < |posts| && field(posts[i]).Some? && field(posts[i]).value != ""
  {
    var opts := FacetOptions(posts, isCooking, field);
    if isCooking {
      if exists i :: 0 <= i < |posts| && field(posts[i]).Some? && field(posts[i]).value != "" {
        var i :| 0 <= i < |posts| && field(posts[i]).Some? && field(posts[i]).value != "";
        assert field(posts[i]).value in opts[1..];
      } else if |opts| > 1 {
        assert opts[1] in opts[1..];
      }
    }
  }

  /** The labels of the sort control, in display order. */
  const SortLabels: seq<string> := ["NEWEST FIRST", "OLDEST FIRST", "MOST VIEWS"]

  /** The sort control's `onChange`: any caption other than the first two means most views. */
  function SortFromLabel(caption: string): SortOption {
    if caption == "NEWEST FIRST" then Newest
    else if caption == "OLDEST FIRST" then Oldest
    else MostViews
  }

  /** The caption the sort control shows for the current order; reading it back gives the order. */
  function SortLabel(s: SortOption): (caption: string)
    ensures caption in SortLabels
    ensures SortFromLabel(caption) == s
  {
    match s
    case Newest => "NEWEST FIRST"
    case Oldest => "OLDEST FIRST"
    case MostViews => "MOST VIEWS"
  }

  /** Choosing any listed caption and showing the result gives the same caption back. */
  lemma LabelRoundTrip(caption: string)
    requires caption in SortLabels
    ensures SortLabel(SortFromLabel(caption)) == caption
  {
  }

  datatype Facet = OriginFacet | TypeFacet

  /** The facet control lists its options upper-cased (`options.map((o) => o.toUpperCase())`). */
  function DisplayedOptions(opts: seq<string>): (shown: seq<string>)
    ensures |shown| == |opts| && forall i :: 0 <= i < |opts| ==> shown[i] == ToUpper(opts[i])
  {
    seq(|opts| , i requires 0 <= i < |opts| => ToUpper(opts[i]))
  }

  /** As written: choosing a displayed option stores the upper-cased caption itself. */
  function SelectFacetAsWritten(c: FilterControls, f: Facet, caption: string): FilterControls {
    match f
    case OriginFacet => c.(origin := caption)
    case TypeFacet => c.(kind := caption)
  }

  /**
   * Choosing the `"ALL"` option as written keeps only posts whose value is
   * literally "all": a post from Italy, shown initially, disappears.
   */
  lemma SelectingAllHidesPosts()
    ensures var p := Post("pasta", None, 0, None, "", "1 min read", None, None, Some("Italy"), None);
      var c := SelectFacetAsWritten(InitialControls, OriginFacet, ToUpper(AllSentinel));
      FilteredPosts([p], InitialControls) == [p] && FilteredPosts([p], c) == []
  {
    var p := Post("pasta", None, 0, None, "", "1 min read", None, None, Some("Italy"), None);
    var c := SelectFacetAsWritten(InitialControls, OriginFacet, ToUpper(AllSentinel));
    assert ToLower("") == "";
    assert Passes(InitialControls, p);
    assert ToUpper("Italy")[0] == 'I' && ToUpper(AllSentinel)[0] == 'A' && ToUpper(AllSentinel)[1] == 'L';
    assert !Passes(c, p);
    var r := FilteredPosts([p], c);
    if r != [] {
      assert r[0] in r;
    }
    var r0 := FilteredPosts([p], InitialControls);
    assert multiset(r0) == multiset([p]) by {
      assert Filter([p], q => Passes(InitialControls, q)) == [p];
    }
    assert |r0| == 1 && r0[0] in multiset(r0);
  }

  /** Corrected choice: the displayed sentinel `"ALL"` resets the facet to `"All"`. */
  function SelectFacet(c: FilterControls, f: Facet, caption: string): (c': FilterControls)
    ensures c'.search == c.search && c'.sortBy == c.sortBy
    ensures f == OriginFacet ==> c'.kind == c.kind
    ensures f == TypeFacet ==> c'.origin == c.origin
  {
    SelectFacetAsWritten(c, f, if caption == ToUpper(AllSentinel) then AllSentinel else caption)
  }

  function FacetFilter(c: FilterControls, f: Facet): string {
    match f
    case OriginFacet => c.origin
    case TypeFacet => c.kind
  }

  /**
   * With the correction, choosing the displayed form of an option filters
   * as that option means: `"ALL"` passes every value, any other option
   * passes exactly the values equal to it up to case.
   */
  lemma SelectFacetMeaning(c: FilterControls, f: Facet, opt: string, value: Option<string>)
    ensures opt == AllSentinel ==> MatchesFacet(FacetFilter(SelectFacet(c, f, ToUpper(opt)), f), value)
    ensures ToUpper(opt) != ToUpper(AllSentinel) ==>
      (MatchesFacet(FacetFilter(SelectFacet(c, f, ToUpper(opt)), f), value) <==>
        value.Some? && ToUpper(value.value) == ToUpper(opt))
  {
    ToUpperIdempotent(opt);
    UpperIsNotSentinel(opt);
  }

  /** No upper-cased string is the mixed-case sentinel `"All"`. */
  lemma UpperIsNotSentinel(s: string)
    ensures ToUpper(s) != AllSentinel
  {
    if |s| == 3 {
      assert !IsAsciiLower(ToUpper(s)[1]) && IsAsciiLower(AllSentinel[1]);
    }
  }
}
