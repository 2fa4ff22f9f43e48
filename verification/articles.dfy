/** The `Article` table of the web application and the invariants the rest
    of the model keeps about a store of articles. */
module Articles {
  import opened Base

  /** One row of the table. `publishedDate` holds the zone-normalised date
      text handed to the date parser (the parser itself is not modelled);
      `rating` is the manual judgement, `predictedRating` the classifier's
      0-100 score. */
  datatype Article = Article(
    id: nat,
    title: string,
    link: string,
    publishedDate: Option<string>,
    englishTitle: string,
    rating: Option<int>,
    predictedRating: Option<real>)

  /** The ratings the web application accepts from a user. */
  predicate IsRating(v: int) {
    v == -1 || v == 0 || v == 1
  }

  /** `title` is declared unique: no two rows share one. */
  ghost predicate UniqueTitles(store: seq<Article>) {
    forall i, j :: 0 <= i < j < |store| ==> store[i].title != store[j].title
  }

  /** `id` is the primary key. */
  ghost predicate UniqueIds(store: seq<Article>) {
    forall i, j :: 0 <= i < j < |store| ==> store[i].id != store[j].id
  }

  /** Every stored rating is one a user could have submitted. */
  ghost predicate RatingsValid(store: seq<Article>) {
    forall i :: 0 <= i < |store| && store[i].rating.Some? ==> IsRating(store[i].rating.value)
  }

  /** Every defined score lies on the 0-100 scale of the column comment. */
  ghost predicate ScoresInRange(store: seq<Article>) {
    forall i :: 0 <= i < |store| && store[i].predictedRating.Some? ==>
      0.0 <= store[i].predictedRating.value <= 100.0
  }

  /** The invariant every operation of the application preserves. */
  ghost predicate Valid(store: seq<Article>) {
    UniqueIds(store) && UniqueTitles(store) && RatingsValid(store) && ScoresInRange(store)
  }

  /** `a` and `b` are the same row except, possibly, for the predicted rating. */
  predicate SameExceptPrediction(a: Article, b: Article) {
    a.(predictedRating := None) == b.(predictedRating := None)
  }

  /** `a` and `b` agree on everything ingestion wrote: key, title, link,
      date and translated title. */
  predicate SameEntry(a: Article, b: Article) {
    a.id == b.id && a.title == b.title && a.link == b.link &&
    a.publishedDate == b.publishedDate && a.englishTitle == b.englishTitle
  }

  /** A row whose prediction alone changed keeps its entry and its rating. */
  lemma SameExceptPredictionKeeps(a: Article, b: Article)
    requires SameExceptPrediction(a, b)
    ensures SameEntry(a, b) && a.rating == b.rating
  {
    assert a.(predictedRating := None).rating == a.rating;
    assert b.(predictedRating := None).rating == b.rating;
    assert a.(predictedRating := None).title == a.title;
    assert b.(predictedRating := None).title == b.title;
  }

  function Ids(store: seq<Article>): (ids: seq<nat>)
    ensures |ids| == |store|
    ensures forall i :: 0 <= i < |store| ==> ids[i] == store[i].id
  {
    seq(|store|, i requires 0 <= i < |store| => store[i].id)
  }

  function Titles(store: seq<Article>): (ts: seq<string>)
    ensures |ts| == |store|
    ensures forall i :: 0 <= i < |store| ==> ts[i] == store[i].title
  {
    seq(|store|, i requires 0 <= i < |store| => store[i].title)
  }

  /** `Article.query.get`: the position of the row with key `id`. */
  function FindById(store: seq<Article>, id: int): (r: Option<nat>)
    ensures r.Some? ==> r.value < |store| && store[r.value].id == id
    ensures r.None? <==> forall i :: 0 <= i < |store| ==> store[i].id != id
  {
    IndexOf<int>(Ids(store), id)
  }

  /** `article_exists`: some row has exactly this title (an exact,
      case-sensitive comparison). */
  predicate ArticleExists(store: seq<Article>, title: string) {
    exists i :: 0 <= i < |store| && store[i].title == title
  }

  /** `article_exists` asks for the first row with the title and checks
      that there is one; that answer is exactly `ArticleExists`. */
  lemma ArticleExistsIsLookup(store: seq<Article>, title: string)
    ensures ArticleExists(store, title) <==> IndexOf(Titles(store), title).Some?
  {
    if ArticleExists(store, title) {
      var i :| 0 <= i < |store| && store[i].title == title;
      assert Titles(store)[i] == title;
    }
  }

  /** Rewriting only predictions keeps keys, titles and ratings, so the
      invariant survives as long as the new scores are on the scale. */
  lemma PredictionUpdateKeepsValid(s: seq<Article>, t: seq<Article>)
    requires |s| == |t|
    requires forall i :: 0 <= i < |s| ==> SameExceptPrediction(s[i], t[i])
    ensures Valid(s) && ScoresInRange(t) ==> Valid(t)
  {
    forall i | 0 <= i < |s|
      ensures s[i].id == t[i].id && s[i].title == t[i].title && s[i].rating == t[i].rating
    {
      SameExceptPredictionKeeps(s[i], t[i]);
    }
  }
}
