/** How the web application and the earlier `fetch_rss.py` relate. Both
    configure the same SQLite file; the earlier table holds the key, title,
    link and rating columns of the later one. Seen through that projection,
    the two ingestion loops store the same rows, and the two rating setters
    agree exactly on the ratings the web application accepts. */
module Contrast {
  import opened Base
  import A = Articles
  import T = Training
  import I = Ingestion
  import S = Serving
  import L = LegacyFetch

  function Project(a: A.Article): L.LegacyArticle {
    L.LegacyArticle(a.id, a.title, a.link, a.rating)
  }

  function ProjectStore(store: seq<A.Article>): (r: seq<L.LegacyArticle>)
    ensures |r| == |store|
    ensures forall i :: 0 <= i < |store| ==> r[i] == Project(store[i])
  {
    seq(|store|, i requires 0 <= i < |store| => Project(store[i]))
  }

  /** Both tables carry the same keys in the same order, so both key
      lookups find the same row. */
  lemma FindByIdAgrees(store: seq<A.Article>, id: int)
    ensures A.FindById(store, id) == L.FindById(ProjectStore(store), id)
  {
    assert A.Ids(store) == L.Ids(ProjectStore(store));
  }

  /** One pass of either loop body makes the same decision and, when it
      saves, the same row. */
  lemma IngestEntryAgrees(store: seq<A.Article>, e: FeedEntry, translate: string -> string)
    ensures ProjectStore(I.IngestEntry(store, e, translate)) == L.IngestEntry(ProjectStore(store), e)
  {
    var p := ProjectStore(store);
    assert A.ArticleExists(store, e.title) <==> L.ArticleExists(p, e.title) by {
      if L.ArticleExists(p, e.title) {
        var j :| 0 <= j < |p| && p[j].title == e.title;
        assert store[j].title == e.title;
      }
    }
    if !A.ArticleExists(store, e.title) {
      assert A.Ids(store) == L.Ids(p);
      var saved := I.SaveArticle(store, e.title, e.link, e.published, translate(e.title));
      assert ProjectStore(saved) == p + [Project(saved[|store|])];
    }
  }

  /** The two ingestion loops store the same keys, titles, links and
      ratings for the same entries. */
  lemma {:induction false} IngestAgrees(store: seq<A.Article>, entries: seq<FeedEntry>,
                                        translate: string -> string)
    ensures ProjectStore(I.IngestEntries(store, entries, translate)) ==
            L.IngestEntries(ProjectStore(store), entries)
    decreases |entries|
  {
    if |entries| > 0 {
      IngestEntryAgrees(store, entries[0], translate);
      IngestAgrees(I.IngestEntry(store, entries[0], translate), entries[1..], translate);
    }
  }

  /** On a rating the web application accepts, both setters give the same
      reply class and leave the same keys, titles, links and ratings; the
      rescoring sweep that follows in the web application touches none of
      these. */
  lemma {:induction false} SettersAgreeOnAcceptedRatings(store: seq<A.Article>, id: int,
                                                         rating: Option<int>, fit: T.Fit)
    requires T.ValidFit(fit) && S.AcceptedRating(rating)
    ensures S.RateArticle(store, id, rating, fit).reply.NotFound? <==>
            L.RateArticle(ProjectStore(store), id, rating).reply.ArticleNotFound?
    ensures ProjectStore(S.RateArticle(store, id, rating, fit).store) ==
            L.RateArticle(ProjectStore(store), id, rating).store
  {
    FindByIdAgrees(store, id);
    var app := S.RateArticle(store, id, rating, fit);
    var legacy := L.RateArticle(ProjectStore(store), id, rating);
    if A.FindById(store, id).Some? {
      var k := A.FindById(store, id).value;
      forall i | 0 <= i < |store|
        ensures Project(app.store[i]) == legacy.store[i]
      {
        assert A.SameEntry(app.store[i], store[i]);
        assert app.store[i].rating == if i == k then rating else store[i].rating;
        assert legacy.store[i].rating == if i == k then rating else store[i].rating;
      }
    }
  }

  /** On any other rating of a known article the web application refuses
      and changes nothing, while the earlier setter stores the value. */
  lemma SettersDisagreeOtherwise(store: seq<A.Article>, id: int, v: int, fit: T.Fit)
    requires T.ValidFit(fit) && A.FindById(store, id).Some? && !A.IsRating(v)
    ensures S.RateArticle(store, id, Some(v), fit) == S.RateResult(S.InvalidRating, store)
    ensures L.RateArticle(ProjectStore(store), id, Some(v)).reply.RatingSaved?
    ensures L.RateArticle(ProjectStore(store), id, Some(v)).store[A.FindById(store, id).value].rating == Some(v)
  {
    FindByIdAgrees(store, id);
  }
}
