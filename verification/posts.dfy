/**
 * The post loader (`posts.ts`): building a `Post` from a parsed Markdown
 * file (excerpt removal, reading time, field mapping), turning file names
 * into slugs, and the newest-first listing. Fetching and parsing the files
 * is not modelled: a listing or a file that cannot be had is `None`.
 */
module Posts {
  import opened Wrappers
  import opened Strings
  import opened Decimal
  import opened Seqs
  import opened StableSort
  import opened PostTypes

  const ExcerptSeparator: string := "<!-- end -->"
  const WordsPerMinute: nat := 250

  /** The front-matter fields the loader reads; `date` is already a timestamp. */
  datatype FrontMatter = FrontMatter(
    title: Option<string>,
    date: int,
    cookingTime: Option<string>,
    origin: Option<string>,
    kind: Option<string>)

  /** A parsed Markdown file: its front matter, its body, and the excerpt before the separator. */
  datatype MatterResult = MatterResult(data: FrontMatter, content: string, excerpt: Option<string>)

  predicate NoWhitespace(w: string) {
    forall k :: 0 <= k < |w| ==> !IsWhitespace(w[k])
  }

  /**
   * `s.split(/\s+/)`: the pieces between maximal runs of whitespace. A
   * leading or trailing run gives an empty first or last piece, so only
   * those two may be empty.
   */
  function SplitWhitespace(s: string): (r: seq<string>)
    ensures |r| >= 1
    ensures forall i :: 0 <= i < |r| ==> NoWhitespace(r[i])
    ensures forall i :: 0 < i < |r| - 1 ==> r[i] != ""
    ensures s != [] && !IsWhitespace(s[0]) ==> r[0] != ""
    decreases |s|
  {
    if s == [] then [""]
    else if !IsWhitespace(s[0]) then
      var rest := SplitWhitespace(s[1..]);
      [[s[0]] + rest[0]] + rest[1..]
    else if |s| > 1 && IsWhitespace(s[1]) then SplitWhitespace(s[1..])
    else [""] + SplitWhitespace(s[1..])
  }

  /** A word in front of the text joins the first piece. */
  lemma {:induction false} SplitAfterWord(w: string, t: string)
    requires NoWhitespace(w)
    ensures SplitWhitespace(w + t) == [w + SplitWhitespace(t)[0]] + SplitWhitespace(t)[1..]
    decreases |w|
  {
    if w == [] {
      assert w + t == t;
      var x := SplitWhitespace(t);
      assert w + x[0] == x[0];
      assert x == [x[0]] + x[1..];
    } else {
      assert (w + t)[0] == w[0];
      assert (w + t)[1..] == w[1..] + t;
      SplitAfterWord(w[1..], t);
      assert [w[0]] + (w[1..] + SplitWhitespace(t)[0]) == w + SplitWhitespace(t)[0];
    }
  }

  /** One space in front of a word starts a new piece. */
  lemma SplitAfterSpace(t: string)
    requires t != [] && !IsWhitespace(t[0])
    ensures SplitWhitespace(" " + t) == [""] + SplitWhitespace(t)
  {
    assert (" " + t)[1..] == t;
  }

  /** Words joined by single spaces split back into the same words. */
  lemma {:induction false} SplitJoinWords(words: seq<string>)
    requires |words| >= 1
    requires forall i :: 0 <= i < |words| ==> words[i] != "" && NoWhitespace(words[i])
    ensures SplitWhitespace(Join(words, " ")) == words
    decreases |words|
  {
    var w := words[0];
    if |words| == 1 {
      SplitAfterWord(w, "");
      assert w + "" == w;
    } else {
      var j := Join(words[1..], " ");
      SplitJoinWords(words[1..]);
      JoinStartsWithFirst(words[1..], " ");
      WordThenWords(w, j, words[1..]);
      JoinCons(w, words[1..], " ");
      assert words == [w] + words[1..];
    }
  }

  /** A word, a space, then text starting with a word: the word comes first. */
  lemma WordThenWords(w: string, j: string, rest: seq<string>)
    requires NoWhitespace(w)
    requires j != [] && !IsWhitespace(j[0]) && SplitWhitespace(j) == rest
    ensures SplitWhitespace(w + " " + j) == [w] + rest
  {
    SplitAfterSpace(j);
    var x := SplitWhitespace(" " + j);
    assert x[0] == "" && x[1..] == rest;
    SplitAfterWord(w, " " + j);
    assert w + x[0] == w;
    assert w + " " + j == w + (" " + j);
  }

  lemma JoinStartsWithFirst(parts: seq<string>, sep: string)
    requires |parts| >= 1 && parts[0] != ""
    ensures Join(parts, sep) != [] && Join(parts, sep)[0] == parts[0][0]
  {
  }

  /** `Math.ceil(words / 250)`: the fewest whole minutes that cover the words. */
  function ReadingMinutes(words: nat): (m: nat)
    requires words >= 1
    ensures m >= 1
    ensures (m - 1) * WordsPerMinute < words <= m * WordsPerMinute
  {
    (words + WordsPerMinute - 1) / WordsPerMinute
  }

  /** `readingTime`: the minutes as a decimal string, never below 1. */
  function ReadingTime(content: string): (r: string)
    ensures AllDigits(r) && ParseDigits(r) == ReadingMinutes(|SplitWhitespace(content)|)
    ensures ParseDigits(r) >= 1
    ensures r[0] != '0'
  {
    var minutes := ReadingMinutes(|SplitWhitespace(content)|);
    ParseNatToString(minutes);
    NatToString(minutes)
  }

  /** `excerpt?.trim() || ""`: the trimmed excerpt, or nothing. */
  function ExcerptText(excerpt: Option<string>): (r: string)
    ensures excerpt.None? ==> r == ""
    ensures excerpt.Some? ==> r == Trim(excerpt.value)
    ensures Trim(r) == r
  {
    TrimIdempotent(excerpt.GetOr(""));
    Trim(excerpt.GetOr(""))
  }

  /**
   * The body of a single post: the first occurrence of the excerpt removed,
   * then the first separator, then the result trimmed.
   */
  function StripExcerpt(content: string, excerpt: Option<string>): (r: string)
    ensures Trim(r) == r
    ensures IndexOf(content, excerpt.GetOr("")).None? && IndexOf(content, ExcerptSeparator).None? ==> r == Trim(content)
  {
    var pre := ReplaceFirst(ReplaceFirst(content, excerpt.GetOr(""), ""), ExcerptSeparator, "");
    TrimIdempotent(pre);
    Trim(pre)
  }

  /** A file laid out as excerpt, separator, body gives back exactly the trimmed body. */
  lemma StripLeadingExcerpt(e: string, body: string)
    ensures StripExcerpt(e + ExcerptSeparator + body, Some(e)) == Trim(body)
  {
    var content := e + ExcerptSeparator + body;
    assert OccursAt(content, e, 0) by {
      assert content[..|e|] == e;
    }
    assert ReplaceFirst(content, e, "") == ExcerptSeparator + body by {
      assert IndexOf(content, e) == Some(0);
      assert content[|e|..] == ExcerptSeparator + body;
    }
    var rest := ExcerptSeparator + body;
    assert OccursAt(rest, ExcerptSeparator, 0) by {
      assert rest[..|ExcerptSeparator|] == ExcerptSeparator;
    }
    assert ReplaceFirst(rest, ExcerptSeparator, "") == body by {
      assert IndexOf(rest, ExcerptSeparator) == Some(0);
      assert rest[|ExcerptSeparator|..] == body;
    }
  }

  /**
   * `createPost`: the front-matter fields copied through, the excerpt
   * trimmed, the content stripped of its excerpt only when asked, and the
   * reading time of that content. Views are not set here.
   */
  function CreatePost(slug: string, m: MatterResult, removeExcerpt: bool): (p: Post)
    ensures p.slug == slug && p.title == m.data.title && p.date == m.data.date
    ensures p.cookingTime == m.data.cookingTime && p.origin == m.data.origin && p.kind == m.data.kind
    ensures p.views.None?
    ensures p.excerpt == Some(ExcerptText(m.excerpt))
    ensures !removeExcerpt ==> p.content == m.content
    ensures removeExcerpt ==> p.content == StripExcerpt(m.content, m.excerpt)
    ensures AllDigits(p.readingTime) && ParseDigits(p.readingTime) >= 1
    ensures ParseDigits(p.readingTime) == ReadingMinutes(|SplitWhitespace(p.content)|)
  {
    var content := if removeExcerpt then StripExcerpt(m.content, m.excerpt) else m.content;
    Post(slug, m.data.title, m.data.date, Some(ExcerptText(m.excerpt)), content, ReadingTime(content),
      None, m.data.cookingTime, m.data.origin, m.data.kind)
  }

  const MarkdownExtension: string := ".md"

  /** `name.replace(/\.md$/, "")`: a trailing `.md` removed, any other name unchanged. */
  function SlugOf(name: string): (slug: string)
    ensures EndsWith(name, MarkdownExtension) ==> slug + MarkdownExtension == name
    ensures !EndsWith(name, MarkdownExtension) ==> slug == name
  {
    if EndsWith(name, MarkdownExtension) then
      var s := name[..|name| - 3];
      assert s + MarkdownExtension == name;
      s
    else name
  }

  /** `${slug}.md`, the file a single post is read from, names the slug again. */
  lemma SlugRoundTrip(slug: string)
    ensures EndsWith(slug + MarkdownExtension, MarkdownExtension)
    ensures SlugOf(slug + MarkdownExtension) == slug
  {
    var name := slug + MarkdownExtension;
    assert name[|name| - 3..] == MarkdownExtension;
    assert name[..|name| - 3] == slug;
  }

  /** An entry of a directory listing. */
  datatype Entry = Entry(name: string, isFile: bool)

  /**
   * The entries that are posts: local cooking files need only end in `.md`;
   * the remote listing also needs a file that is not named `cooking`.
   */
  predicate IsPostEntry(isCooking: bool, e: Entry) {
    EndsWith(e.name, MarkdownExtension) && (isCooking || (e.isFile && e.name != "cooking"))
  }

  /** The `name !== "cooking"` test never removes an entry: a `.md` name is never `cooking`. */
  lemma CookingTestRedundant(e: Entry)
    ensures IsPostEntry(false, e) <==> EndsWith(e.name, MarkdownExtension) && e.isFile
  {
  }

  function PostEntries(isCooking: bool, entries: seq<Entry>): (r: seq<Entry>)
    ensures forall e :: e in r <==> e in entries && IsPostEntry(isCooking, e)
  {
    Filter(entries, e => IsPostEntry(isCooking, e))
  }

  predicate AllLoaded(files: seq<Entry>, load: string -> Option<MatterResult>) {
    forall i :: 0 <= i < |files| ==> load(files[i].name).Some?
  }

  /** One post per loaded file, in listing order. */
  function Build(files: seq<Entry>, load: string -> Option<MatterResult>): (r: seq<Post>)
    requires AllLoaded(files, load)
    ensures |r| == |files|
    ensures forall i :: 0 <= i < |r| ==> r[i] == CreatePost(SlugOf(files[i].name), load(files[i].name).value, false)
  {
    seq(|files|, i requires 0 <= i < |files| => CreatePost(SlugOf(files[i].name), load(files[i].name).value, false))
  }

  /**
   * `getSortedPostsData`: every post file of the listing built into a post
   * and the posts sorted newest first. A missing listing or any post file
   * that cannot be loaded gives no posts at all.
   */
  function SortedPosts(isCooking: bool, listing: Option<seq<Entry>>, load: string -> Option<MatterResult>): (r: seq<Post>)
    ensures listing.None? ==> r == []
    ensures listing.Some? && !AllLoaded(PostEntries(isCooking, listing.value), load) ==> r == []
    ensures listing.Some? && AllLoaded(PostEntries(isCooking, listing.value), load) ==>
      var files := PostEntries(isCooking, listing.value);
      multiset(r) == multiset(Build(files, load))
    ensures forall i, j :: 0 <= i < j < |r| ==> r[i].date >= r[j].date
  {
    if listing.None? then []
    else
      var files := PostEntries(isCooking, listing.value);
      if !AllLoaded(files, load) then []
      else
        var r := Sort(Build(files, load), NewestFirst);
        NewestFirstSorted(r);
        r
  }

  /** Every listed post comes from a `.md` entry of the listing, named by its slug. */
  lemma SortedPostsFromEntries(isCooking: bool, listing: Option<seq<Entry>>, load: string -> Option<MatterResult>, p: Post)
    requires p in SortedPosts(isCooking, listing, load)
    ensures listing.Some?
    ensures exists e :: e in listing.value && IsPostEntry(isCooking, e) && e.name == p.slug + MarkdownExtension
  {
    var files := PostEntries(isCooking, listing.value);
    var built := Build(files, load);
    assert p in multiset(built);
    var i :| 0 <= i < |built| && built[i] == p;
    assert files[i] in files;
    var name := files[i].name;
    assert SlugOf(name) + MarkdownExtension == name;
  }

  /** `getPostData`: the post with its excerpt removed, or nothing when the file cannot be loaded. */
  function PostData(slug: string, file: Option<MatterResult>): (r: Option<Post>)
    ensures r.Some? <==> file.Some?
    ensures r.Some? ==> r.value.slug == slug && r.value.content == StripExcerpt(file.value.content, file.value.excerpt)
  {
    match file
    case None => None
    case Some(m) => Some(CreatePost(slug, m, true))
  }
}
