/**
 * The `Post` record shared by the post loader and the blog filters. The
 * `date` field holds the timestamp `new Date(date).getTime()` of the
 * front-matter date (date parsing is not part of this model); optional
 * fields are `Option`s. The source's `type` field is called `kind` here.
 */
module PostTypes {
  import opened Wrappers
  import opened StableSort

  datatype Post = Post(
    slug: string,
    title: Option<string>,
    date: int,
    excerpt: Option<string>,
    content: string,
    readingTime: string,
    views: Option<int>,
    cookingTime: Option<string>,
    origin: Option<string>,
    kind: Option<string>)

  /** `new Date(b.date) - new Date(a.date)` as an ascending key: later posts first. */
  function NewestFirst(p: Post): seq<int> {
    [-p.date]
  }

  /** Sorted by `NewestFirst`, the dates never increase. */
  lemma NewestFirstSorted(r: seq<Post>)
    requires SortedBy(r, NewestFirst)
    ensures forall i, j :: 0 <= i < j < |r| ==> r[i].date >= r[j].date
  {
    forall i, j | 0 <= i < j < |r| ensures r[i].date >= r[j].date {
      assert KeyLe(NewestFirst(r[i]), NewestFirst(r[j]));
      KeyLeSingleton(-r[i].date, -r[j].date);
    }
  }
}
