/** The two request handlers of the ranking loop: `get_articles`, which lists
    the articles still worth showing best-scored first, and `rate_article`,
    which records a judgement and triggers a rescoring sweep. */
module Serving {
  import opened Base
  import opened Articles
  import opened Training

  /** The rows `/api/articles` lists: not rated yet, or rated neutral or
      negative. */
  predicate Listed(a: Article) {
    a.rating == None || a.rating == Some(0) || a.rating == Some(-1)
  }

  /** Descending predicted rating with unscored rows last: a row scored `x`
      may precede a row scored `y`. */
  predicate RanksBefore(x: Option<real>, y: Option<real>) {
    match y
    case None => true
    case Some(b) => x.Some? && x.value >= b
  }

  predicate Ranked(s: seq<Article>) {
    forall i, j :: 0 <= i < j < |s| ==> RanksBefore(s[i].predictedRating, s[j].predictedRating)
  }

  /** The listed rows of the store, each as often as it occurs there. */
  function ListedRows(store: seq<Article>): (r: seq<Article>)
    ensures forall a :: multiset(r)[a] == if Listed(a) then multiset(store)[a] else 0
  {
    if |store| == 0 then []
    else
      var n := |store| - 1;
      assert store == store[..n] + [store[n]];
      ListedRows(store[..n]) + (if Listed(store[n]) then [store[n]] else [])
  }

  /** A row that may precede every row of a ranked list may head it. */
  lemma RankedCons(a: Article, s: seq<Article>)
    requires Ranked(s)
    requires forall x :: x in s ==> RanksBefore(a.predictedRating, x.predictedRating)
    ensures Ranked([a] + s)
  {
    forall i, j | 0 <= i < j < |[a] + s|
      ensures RanksBefore(([a] + s)[i].predictedRating, ([a] + s)[j].predictedRating)
    {
      if i == 0 {
        assert ([a] + s)[j] == s[j - 1] && s[j - 1] in s;
      } else {
        assert ([a] + s)[i] == s[i - 1] && ([a] + s)[j] == s[j - 1];
      }
    }
  }

  /** Insert one row into a ranked list, before the first row it may precede. */
  function Insert(a: Article, s: seq<Article>): (r: seq<Article>)
    requires Ranked(s)
    ensures Ranked(r)
    ensures multiset(r) == multiset(s) + multiset{a}
  {
    if |s| == 0 then [a]
    else if RanksBefore(a.predictedRating, s[0].predictedRating) then
      assert forall x :: x in s ==> RanksBefore(a.predictedRating, x.predictedRating) by {
        forall x | x in s ensures RanksBefore(a.predictedRating, x.predictedRating) {
          var j :| 0 <= j < |s| && s[j] == x;
          if j > 0 {
            assert RanksBefore(s[0].predictedRating, s[j].predictedRating);
          }
        }
      }
      RankedCons(a, s);
      [a] + s
    else
      var rest := Insert(a, s[1..]);
      assert multiset(s) == multiset{s[0]} + multiset(s[1..]) by {
        assert s == [s[0]] + s[1..];
      }
      assert forall x :: x in rest ==> RanksBefore(s[0].predictedRating, x.predictedRating) by {
        forall x | x in rest ensures RanksBefore(s[0].predictedRating, x.predictedRating) {
          assert x in multiset(rest);
          if x != a {
            assert x in multiset(s[1..]);
            var j :| 0 <= j < |s[1..]| && s[1..][j] == x;
            assert s[j + 1] == x;
          }
        }
      }
      RankedCons(s[0], rest);
      [s[0]] + rest
  }

  function Rank(s: seq<Article>): (r: seq<Article>)
    ensures Ranked(r)
    ensures multiset(r) == multiset(s)
  {
    if |s| == 0 then []
    else
      assert s == [s[0]] + s[1..];
      Insert(s[0], Rank(s[1..]))
  }

  /** `get_articles()`: exactly the listed rows, each as often as stored, in
      descending order of predicted rating with unscored rows last. The
      order among rows with equal scores is left open, as the query leaves it. */
  function GetArticles(store: seq<Article>): (r: seq<Article>)
    ensures forall a :: multiset(r)[a] == if Listed(a) then multiset(store)[a] else 0
    ensures forall a :: a in r <==> a in store && Listed(a)
    ensures Ranked(r)
  {
    var r := Rank(ListedRows(store));
    assert forall a :: a in r <==> a in multiset(r);
    assert forall a :: a in store <==> a in multiset(store);
    r
  }

  /** In a ranked list, such as the one `GetArticles` returns, every scored
      row comes before every unscored one. */
  lemma UnscoredLast(s: seq<Article>, i: nat, j: nat)
    requires Ranked(s)
    requires i < |s| && j < |s|
    requires s[i].predictedRating.None? && s[j].predictedRating.Some?
    ensures j < i
  {
  }

  /** The replies of `/api/rate_article`: 200, 404, 400, and the server error
      a raising fit turns into. */
  datatype Reply = Saved | NotFound | InvalidRating | ServerError

  datatype RateResult = RateResult(reply: Reply, store: seq<Article>)

  /** Whether the submitted rating is -1, 0 or 1; a missing one is None. */
  predicate AcceptedRating(rating: Option<int>) {
    rating.Some? && IsRating(rating.value)
  }

  /** `rate_article()`: unknown id first, then an out-of-range rating, and
      only then the new rating, committed before the sweep runs. A known
      article given an accepted rating always gets it and always triggers
      the sweep; the reply is a server error exactly when the fit raises. */
  function RateArticle(store: seq<Article>, id: int, rating: Option<int>, fit: Fit): (r: RateResult)
    requires ValidFit(fit)
    ensures FindById(store, id).None? ==> r == RateResult(NotFound, store)
    ensures FindById(store, id).Some? && !AcceptedRating(rating) ==> r == RateResult(InvalidRating, store)
    ensures r.reply.Saved? || r.reply.ServerError? ==> FindById(store, id).Some? && AcceptedRating(rating)
    ensures |r.store| == |store|
    ensures forall i :: 0 <= i < |store| ==> SameEntry(r.store[i], store[i])
    ensures r.reply.Saved? || r.reply.ServerError? ==> forall i :: 0 <= i < |store| ==>
      r.store[i].rating == if i == FindById(store, id).value then rating else store[i].rating
    ensures FindById(store, id).Some? && AcceptedRating(rating) ==>
      var sweep := UpdatePredictions(SetRating(store, FindById(store, id).value, rating), fit);
      r.store == sweep.store && (r.reply.ServerError? <==> sweep.outcome.Raised?) &&
      (r.reply.Saved? <==> !sweep.outcome.Raised?)
    ensures Valid(store) ==> Valid(r.store)
  {
    match FindById(store, id)
    case None => RateResult(NotFound, store)
    case Some(k) =>
      if !AcceptedRating(rating) then RateResult(InvalidRating, store)
      else
        var rated := SetRating(store, k, rating);
        var sweep := UpdatePredictions(rated, fit);
        assert forall i :: 0 <= i < |store| ==>
          SameEntry(sweep.store[i], rated[i]) && sweep.store[i].rating == rated[i].rating by {
          forall i | 0 <= i < |store|
            ensures SameEntry(sweep.store[i], rated[i]) && sweep.store[i].rating == rated[i].rating
          {
            SameExceptPredictionKeeps(sweep.store[i], rated[i]);
          }
        }
        RateResult(if sweep.outcome.Raised? then ServerError else Saved, sweep.store)
  }

  /** Assign the rating of the row at position `k`. */
  function SetRating(store: seq<Article>, k: nat, rating: Option<int>): (r: seq<Article>)
    requires k < |store|
    ensures |r| == |store|
    ensures forall i :: 0 <= i < |store| ==> SameEntry(r[i], store[i])
    ensures forall i :: 0 <= i < |store| ==> r[i].rating == if i == k then rating else store[i].rating
    ensures forall i :: 0 <= i < |store| ==> r[i].predictedRating == store[i].predictedRating
    ensures forall i :: 0 <= i < |store| && i != k ==> r[i] == store[i]
    ensures Valid(store) && AcceptedRating(rating) ==> Valid(r)
  {
    store[k := store[k].(rating := rating)]
  }

  /** A saved rating becomes training data: the sweep that follows trains
      on the article's english title with the new label. */
  lemma RatingJoinsTrainingData(store: seq<Article>, id: int, v: int, fit: Fit)
    requires ValidFit(fit) && IsRating(v)
    requires FindById(store, id).Some?
    ensures (store[FindById(store, id).value].englishTitle, v) in
      TrainingSet(RateArticle(store, id, Some(v), fit).store)
  {
    var k := FindById(store, id).value;
    var r := RateArticle(store, id, Some(v), fit).store;
    assert SameEntry(r[k], store[k]) && r[k].rating == Some(v);
  }

  /** Once at least five articles are rated and all alike, a rating that
      keeps them alike is stored but answered with a server error: the fit
      raises on a single label after the rating was committed, and no score
      changes. */
  lemma SingleLabelRatingIsServerError(store: seq<Article>, id: int, v: int, fit: Fit)
    requires ValidFit(fit) && IsRating(v)
    requires FindById(store, id).Some?
    requires |RatedPositions(store)| >= MinTrainSamples
    requires forall i :: 0 <= i < |store| && store[i].rating.Some? ==> store[i].rating == Some(v)
    ensures RateArticle(store, id, Some(v), fit).reply.ServerError?
    ensures RateArticle(store, id, Some(v), fit).store == SetRating(store, FindById(store, id).value, Some(v))
  {
    var k := FindById(store, id).value;
    var rated := SetRating(store, k, Some(v));
    assert RatedPositions(rated) == RatedPositions(store) + {k};
    if k !in RatedPositions(store) {
      assert |RatedPositions(rated)| == |RatedPositions(store)| + 1;
    } else {
      assert RatedPositions(rated) == RatedPositions(store);
    }
    assert OneRatingValue(rated);
    SingleLabelSweepRaises(rated, fit);
  }

  /** A positive rating takes the article off the list; the sweep that
      follows cannot bring it back. */
  lemma PositiveRatingUnlists(store: seq<Article>, id: int, fit: Fit)
    requires ValidFit(fit) && UniqueIds(store)
    requires FindById(store, id).Some?
    ensures forall a :: a in GetArticles(RateArticle(store, id, Some(1), fit).store) ==> a.id != id
  {
    var r := RateArticle(store, id, Some(1), fit).store;
    var k := FindById(store, id).value;
    UnlistedRow(store, r, k);
  }

  /** Keys are unique and kept, so once the row at `k` is rated 1 no listed
      row carries its key. */
  lemma UnlistedRow(store: seq<Article>, r: seq<Article>, k: nat)
    requires UniqueIds(store) && k < |store| == |r|
    requires forall i :: 0 <= i < |store| ==> SameEntry(r[i], store[i])
    requires r[k].rating == Some(1)
    ensures forall a :: a in GetArticles(r) ==> a.id != store[k].id
  {
    forall a | a in GetArticles(r) ensures a.id != store[k].id {
      var i :| 0 <= i < |r| && r[i] == a;
      if i != k {
        assert store[i].id != store[k].id;
      }
    }
  }

  /** A neutral or negative rating keeps the article listed. */
  lemma NonPositiveRatingStaysListed(store: seq<Article>, id: int, v: int, fit: Fit)
    requires ValidFit(fit)
    requires v == 0 || v == -1
    requires FindById(store, id).Some?
    ensures exists a :: a in GetArticles(RateArticle(store, id, Some(v), fit).store) && a.id == id
  {
    var r := RateArticle(store, id, Some(v), fit).store;
    var k := FindById(store, id).value;
    assert r[k] in r && Listed(r[k]);
    assert r[k] in GetArticles(r);
  }
}
