/** `train_model` and `update_predictions`: the training gate and the
    rescoring sweep. Fitting the vectorizer and classifier is opaque: `fit`
    receives the training titles and their labels and either returns a
    trained model or raises (None). */
module Training {
  import opened Base
  import opened Articles
  import opened Scoring

  type Fit = (seq<string>, seq<int>) -> Option<Trained>

  /** Fewer rated articles than this and no model is trained. */
  const MinTrainSamples: nat := 5

  /** Every label is the same one (or there are none). */
  predicate SingleLabel(labels: seq<int>) {
    forall i, j :: 0 <= i < |labels| && 0 <= j < |labels| ==> labels[i] == labels[j]
  }

  /** What the library guarantees of a fit: one that returns gives a valid
      model whose classes are exactly the distinct labels it was trained on,
      and logistic regression raises when fewer than two labels occur. */
  ghost predicate ValidFit(fit: Fit) {
    forall titles, labels ::
      (fit(titles, labels).Some? ==>
        ValidModel(fit(titles, labels).value) &&
        (forall c :: c in fit(titles, labels).value.classes <==> c in labels)) &&
      (SingleLabel(labels) ==> fit(titles, labels).None?)
  }

  /** The positions of the articles whose rating is set. */
  ghost function RatedPositions(store: seq<Article>): set<nat> {
    set i: nat | i < |store| && store[i].rating.Some?
  }

  /** The positions of the articles rated `p.1` whose english title is `p.0`. */
  ghost function RowsGiving(store: seq<Article>, p: (string, int)): set<nat> {
    set i: nat | i < |store| && store[i].rating == Some(p.1) && store[i].englishTitle == p.0
  }

  /** The (english title, rating) pairs of the articles whose rating is
      set, one pair per rated article, in store order. */
  function TrainingSet(store: seq<Article>): (d: seq<(string, int)>)
    ensures |d| == |RatedPositions(store)|
    ensures forall p :: multiset(d)[p] == |RowsGiving(store, p)|
    ensures forall p :: p in d <==>
      exists i :: 0 <= i < |store| && store[i].rating == Some(p.1) && store[i].englishTitle == p.0
  {
    var r := if |store| == 0 then [] else
      var n := |store| - 1;
      var d := TrainingSet(store[..n]);
      if store[n].rating.Some? then d + [(store[n].englishTitle, store[n].rating.value)] else d;
    assert |r| == |RatedPositions(store)| by {
      if |store| == 0 {
        assert RatedPositions(store) == {};
      } else {
        RatedPositionsStep(store);
      }
    }
    assert forall p :: multiset(r)[p] == |RowsGiving(store, p)| by {
      forall p ensures multiset(r)[p] == |RowsGiving(store, p)| {
        if |store| == 0 {
          assert RowsGiving(store, p) == {};
        } else {
          RowsGivingStep(store, p);
        }
      }
    }
    MembershipFromCount(store, r);
    r
  }

  /** A sequence holding each pair as often as rows give it holds exactly
      the pairs some row gives. */
  lemma MembershipFromCount(store: seq<Article>, d: seq<(string, int)>)
    requires forall p :: multiset(d)[p] == |RowsGiving(store, p)|
    ensures forall p :: p in d <==>
      exists i :: 0 <= i < |store| && store[i].rating == Some(p.1) && store[i].englishTitle == p.0
  {
    forall p ensures p in d <==>
      exists i :: 0 <= i < |store| && store[i].rating == Some(p.1) && store[i].englishTitle == p.0 {
      assert p in d <==> multiset(d)[p] > 0;
      RowsGivingNonEmpty(store, p);
    }
  }

  /** Extending the store by one row adds that row's position to the
      positions giving its pair, and to no other pair's. */
  lemma RowsGivingStep(store: seq<Article>, p: (string, int))
    requires |store| > 0
    ensures var n := |store| - 1;
      RowsGiving(store, p) ==
        RowsGiving(store[..n], p) + (if store[n].rating == Some(p.1) && store[n].englishTitle == p.0 then {n} else {})
    ensures |store| - 1 !in RowsGiving(store[..|store| - 1], p)
  {
    var n := |store| - 1;
    assert forall i :: 0 <= i < n ==> store[..n][i] == store[i];
  }

  lemma RatedPositionsStep(store: seq<Article>)
    requires |store| > 0
    ensures var n := |store| - 1;
      RatedPositions(store) == RatedPositions(store[..n]) + (if store[n].rating.Some? then {n} else {})
    ensures |store| - 1 !in RatedPositions(store[..|store| - 1])
  {
    var n := |store| - 1;
    assert forall i :: 0 <= i < n ==> store[..n][i] == store[i];
  }

  /** Some row gives the pair exactly when the set of such rows is not empty. */
  lemma RowsGivingNonEmpty(store: seq<Article>, p: (string, int))
    ensures |RowsGiving(store, p)| > 0 <==>
      exists i :: 0 <= i < |store| && store[i].rating == Some(p.1) && store[i].englishTitle == p.0
  {
    if exists i :: 0 <= i < |store| && store[i].rating == Some(p.1) && store[i].englishTitle == p.0 {
      var i :| 0 <= i < |store| && store[i].rating == Some(p.1) && store[i].englishTitle == p.0;
      assert i in RowsGiving(store, p);
    } else {
      assert RowsGiving(store, p) == {};
    }
  }

  function TrainTitles(d: seq<(string, int)>): seq<string> {
    seq(|d|, i requires 0 <= i < |d| => d[i].0)
  }

  function TrainLabels(d: seq<(string, int)>): seq<int> {
    seq(|d|, i requires 0 <= i < |d| => d[i].1)
  }

  /** The labels handed to the fit are exactly the ratings in the store. */
  lemma LabelsAreRatings(store: seq<Article>)
    ensures forall c :: c in TrainLabels(TrainingSet(store)) <==>
      exists i :: 0 <= i < |store| && store[i].rating == Some(c)
  {
    var d := TrainingSet(store);
    forall c ensures c in TrainLabels(d) ==> exists i :: 0 <= i < |store| && store[i].rating == Some(c) {
      if c in TrainLabels(d) {
        var k :| 0 <= k < |d| && TrainLabels(d)[k] == c;
        assert d[k] in d;
      }
    }
    forall c, i | 0 <= i < |store| && store[i].rating == Some(c) ensures c in TrainLabels(d) {
      assert (store[i].englishTitle, c) in d;
      var k :| 0 <= k < |d| && d[k] == (store[i].englishTitle, c);
      assert TrainLabels(d)[k] == c;
    }
  }

  datatype TrainOutcome = TooFewRated | FitRaised | Model(m: Trained)

  /** `train_model()`: no model below the threshold, otherwise whatever the
      opaque fit makes of the rated articles alone. */
  function TrainModel(store: seq<Article>, fit: Fit): (r: TrainOutcome)
    ensures r.TooFewRated? <==> |RatedPositions(store)| < MinTrainSamples
    ensures r.Model? ==> fit(TrainTitles(TrainingSet(store)), TrainLabels(TrainingSet(store))) == Some(r.m)
    ensures r.FitRaised? ==> fit(TrainTitles(TrainingSet(store)), TrainLabels(TrainingSet(store))).None?
    ensures ValidFit(fit) && r.Model? ==> ValidModel(r.m)
    ensures ValidFit(fit) && r.Model? ==> forall c :: c in r.m.classes <==>
      exists i :: 0 <= i < |store| && store[i].rating == Some(c)
  {
    var d := TrainingSet(store);
    if |d| < MinTrainSamples then TooFewRated
    else
      match fit(TrainTitles(d), TrainLabels(d))
      case None => FitRaised
      case Some(m) =>
        LabelsAreRatings(store);
        Model(m)
  }

  /** Outcome of one sweep: rescored, skipped for lack of rated articles, or
      aborted because the fit raised. */
  datatype SweepOutcome = Rescored | NotEnoughData | Raised

  datatype Sweep = Sweep(outcome: SweepOutcome, store: seq<Article>)

  /** The loop of `update_predictions`: every article gets the model's score
      for its english title, nothing else about it changes. */
  function Rescore(store: seq<Article>, m: Trained): (r: seq<Article>)
    requires ValidModel(m)
    ensures |r| == |store|
    ensures forall i :: 0 <= i < |r| ==>
      SameExceptPrediction(r[i], store[i]) &&
      r[i].predictedRating == Some(PredictRating(store[i].englishTitle, Some(m)))
    ensures ScoresInRange(r)
  {
    seq(|store|, i requires 0 <= i < |store| =>
      store[i].(predictedRating := Some(PredictRating(store[i].englishTitle, Some(m)))))
  }

  /** `update_predictions()`. */
  function UpdatePredictions(store: seq<Article>, fit: Fit): (r: Sweep)
    requires ValidFit(fit)
    ensures r.outcome.NotEnoughData? <==> |RatedPositions(store)| < MinTrainSamples
    ensures r.outcome.Rescored? <==> TrainModel(store, fit).Model?
    ensures !r.outcome.Rescored? ==> r.store == store
    ensures |r.store| == |store|
    ensures forall i :: 0 <= i < |store| ==> SameExceptPrediction(r.store[i], store[i])
    ensures r.outcome.Rescored? ==> forall i :: 0 <= i < |store| ==>
      r.store[i].predictedRating == Some(PredictRating(store[i].englishTitle, Some(TrainModel(store, fit).m)))
    ensures ScoresInRange(store) ==> ScoresInRange(r.store)
    ensures Valid(store) ==> Valid(r.store)
  {
    var r := match TrainModel(store, fit)
      case TooFewRated => Sweep(NotEnoughData, store)
      case FitRaised => Sweep(Raised, store)
      case Model(m) => Sweep(Rescored, Rescore(store, m));
    PredictionUpdateKeepsValid(store, r.store);
    r
  }

  /** Only the english title and the rating of an article feed training. */
  lemma {:induction false} TrainingSetIgnoresScores(s: seq<Article>, t: seq<Article>)
    requires |s| == |t|
    requires forall i :: 0 <= i < |s| ==> SameExceptPrediction(s[i], t[i])
    ensures TrainingSet(s) == TrainingSet(t)
  {
    if |s| > 0 {
      var n := |s| - 1;
      assert SameExceptPrediction(s[n], t[n]);
      assert s[n].rating == t[n].rating && s[n].englishTitle == t[n].englishTitle by {
        assert s[n].(predictedRating := None).rating == s[n].rating;
        assert t[n].(predictedRating := None).rating == t[n].rating;
        assert s[n].(predictedRating := None).englishTitle == s[n].englishTitle;
        assert t[n].(predictedRating := None).englishTitle == t[n].englishTitle;
      }
      TrainingSetIgnoresScores(s[..n], t[..n]);
    }
  }

  /** An article without a rating adds nothing to the training data. */
  lemma TrainingSetSkipsUnrated(store: seq<Article>, a: Article)
    requires a.rating.None?
    ensures TrainingSet(store + [a]) == TrainingSet(store)
  {
    assert (store + [a])[..|store|] == store;
  }

  /** Running the sweep a second time changes nothing: the sweep alters no
      training input, so the second fit sees the same data. */
  lemma SweepIdempotent(store: seq<Article>, fit: Fit)
    requires ValidFit(fit)
    ensures UpdatePredictions(UpdatePredictions(store, fit).store, fit) == UpdatePredictions(store, fit)
  {
    var first := UpdatePredictions(store, fit);
    TrainingSetIgnoresScores(first.store, store);
    var second := UpdatePredictions(first.store, fit);
    if first.outcome.Rescored? {
      assert second.store == first.store;
    }
  }

  /** A fit only returns on at least two distinct labels, so a trained model
      always has at least two classes. */
  lemma ModelHasTwoClasses(store: seq<Article>, fit: Fit)
    requires ValidFit(fit) && TrainModel(store, fit).Model?
    ensures |TrainModel(store, fit).m.classes| >= 2
  {
    var d := TrainingSet(store);
    var labels := TrainLabels(d);
    var m := TrainModel(store, fit).m;
    assert fit(TrainTitles(d), labels) == Some(m);
    assert !SingleLabel(labels);
    var a, b :| 0 <= a < |labels| && 0 <= b < |labels| && labels[a] != labels[b];
    assert labels[a] in labels && labels[b] in labels;
    assert labels[a] in m.classes && labels[b] in m.classes;
    var ia :| 0 <= ia < |m.classes| && m.classes[ia] == labels[a];
    var ib :| 0 <= ib < |m.classes| && m.classes[ib] == labels[b];
    assert ia != ib;
  }

  /** Every rated article carries the same rating. */
  ghost predicate OneRatingValue(store: seq<Article>) {
    forall i, j :: 0 <= i < |store| && 0 <= j < |store| && store[i].rating.Some? && store[j].rating.Some? ==>
      store[i].rating == store[j].rating
  }

  /** Enough ratings, all alike: the fit raises and the sweep aborts without
      touching the store. */
  lemma SingleLabelSweepRaises(store: seq<Article>, fit: Fit)
    requires ValidFit(fit)
    requires |RatedPositions(store)| >= MinTrainSamples && OneRatingValue(store)
    ensures UpdatePredictions(store, fit).outcome.Raised?
    ensures UpdatePredictions(store, fit).store == store
  {
    var d := TrainingSet(store);
    var labels := TrainLabels(d);
    LabelsAreRatings(store);
    assert SingleLabel(labels) by {
      forall i, j | 0 <= i < |labels| && 0 <= j < |labels| ensures labels[i] == labels[j] {
        assert labels[i] in labels && labels[j] in labels;
        var x :| 0 <= x < |store| && store[x].rating == Some(labels[i]);
        var y :| 0 <= y < |store| && store[y].rating == Some(labels[j]);
      }
    }
    assert fit(TrainTitles(d), labels).None?;
  }

  /** When every stored rating is one a user can give, a rescored article
      carries the anchored sum of its class probabilities (negative 0,
      neutral 50, positive 100); a model always has at least two classes. */
  lemma SweepScoresAreAnchored(store: seq<Article>, fit: Fit, i: nat)
    requires ValidFit(fit) && RatingsValid(store)
    requires i < |store|
    ensures UpdatePredictions(store, fit).outcome.Rescored? ==>
      var m := TrainModel(store, fit).m;
      var prob := m.proba(store[i].englishTitle);
      |m.classes| >= 2 && |prob| == |m.classes| &&
      UpdatePredictions(store, fit).store[i].predictedRating == Some(AnchoredSum(m.classes, prob))
  {
    if UpdatePredictions(store, fit).outcome.Rescored? {
      var m := TrainModel(store, fit).m;
      var prob := m.proba(store[i].englishTitle);
      assert IsDistribution(prob, |m.classes|);
      ModelClassesAreRatings(store, fit);
      ModelHasTwoClasses(store, fit);
      ScoreIsAnchoredSum(m.classes, prob);
    }
  }

  /** With valid stored ratings, a model's classes lie within -1..1. */
  lemma ModelClassesAreRatings(store: seq<Article>, fit: Fit)
    requires ValidFit(fit) && RatingsValid(store) && TrainModel(store, fit).Model?
    ensures forall k :: 0 <= k < |TrainModel(store, fit).m.classes| ==>
      -1 <= TrainModel(store, fit).m.classes[k] <= 1
  {
    var m := TrainModel(store, fit).m;
    forall k | 0 <= k < |m.classes| ensures -1 <= m.classes[k] <= 1 {
      assert m.classes[k] in m.classes;
      var j :| 0 <= j < |store| && store[j].rating == Some(m.classes[k]);
    }
  }
}
