/** `predict_rating`: turning the classifier's class probabilities for one
    title into a relevance score on a 0-100 scale. The classifier is opaque:
    a trained model is its ascending class list and a function from a title
    to one probability per class, in the order of that list. */
module Scoring {
  import opened Base

  /** A fitted vectorizer and classifier pair. `proba(t)` is the class
      probability vector the pair gives title `t`. */
  datatype Trained = Trained(classes: seq<int>, proba: string -> seq<real>)

  /** The score given when no model exists or the class list is not one
      the mapping handles. */
  const NeutralScore: real := 50.0

  predicate StrictlyAscending(s: seq<int>) {
    forall i, j :: 0 <= i < j < |s| ==> s[i] < s[j]
  }

  function Sum(p: seq<real>): real {
    if |p| == 0 then 0.0 else p[0] + Sum(p[1..])
  }

  /** `p` is a probability distribution over `n` classes. */
  predicate IsDistribution(p: seq<real>, n: nat) {
    |p| == n && (forall i :: 0 <= i < |p| ==> 0.0 <= p[i] <= 1.0) && Sum(p) == 1.0
  }

  /** What the library guarantees of a fitted model: classes in ascending
      order, and for every title a distribution aligned with them. */
  ghost predicate ValidModel(m: Trained) {
    StrictlyAscending(m.classes) &&
    forall t :: IsDistribution(m.proba(t), |m.classes|)
  }

  /** The probability the vector gives class `c` (0 when `c` is not a class). */
  function ProbOf(classes: seq<int>, prob: seq<real>, c: int): real
    requires |prob| == |classes|
  {
    if |classes| == 0 then 0.0
    else if classes[0] == c then prob[0]
    else ProbOf(classes[1..], prob[1..], c)
  }

  /** The anchor each label carries on the score scale: negative 0,
      neutral 50, positive 100. */
  function Anchor(c: int): real {
    if c == 1 then 100.0 else if c == 0 then 50.0 else 0.0
  }

  /** The reference reading of the mapping: every class contributes its
      anchor weighted by its probability. */
  function AnchoredSum(classes: seq<int>, prob: seq<real>): real
    requires |prob| == |classes|
  {
    if |classes| == 0 then 0.0
    else Anchor(classes[0]) * prob[0] + AnchoredSum(classes[1..], prob[1..])
  }

  /** The weighted combination of `predict_rating`, before rounding. It
      reads the probability vector by position: two classes are told apart
      by their set, three classes are weighted 0, 50, 100 in list order
      whatever their values are. */
  function MapScore(classes: seq<int>, prob: seq<real>): (r: real)
    requires |prob| == |classes|
    ensures |classes| != 2 && |classes| != 3 ==> r == NeutralScore
    ensures |classes| == 2 && {classes[0], classes[1]} !in {{-1, 1}, {0, 1}, {-1, 0}} ==> r == NeutralScore
  {
    if |classes| == 2 then
      var present := {classes[0], classes[1]};
      if present == {-1, 1} then prob[1] * 100.0 + prob[0] * 0.0
      else if present == {0, 1} then prob[1] * 100.0 + prob[0] * 50.0
      else if present == {-1, 0} then prob[1] * 50.0 + prob[0] * 0.0
      else NeutralScore
    else if |classes| == 3 then
      prob[2] * 100.0 + prob[1] * 50.0 + prob[0] * 0.0
    else NeutralScore
  }

  /** `predict_rating` without the final rounding; no model means the
      neutral score. */
  function PredictRating(title: string, model: Option<Trained>): (r: real)
    requires model.Some? ==> |model.value.proba(title)| == |model.value.classes|
    ensures model.None? ==> r == NeutralScore
    ensures model.Some? && IsDistribution(model.value.proba(title), |model.value.classes|) ==>
      0.0 <= r <= 100.0
  {
    match model
    case None => NeutralScore
    case Some(m) =>
      ScoreBounds(m.classes, m.proba(title));
      MapScore(m.classes, m.proba(title))
  }

  /** The mapping reads the probability vector by position; because the
      class list is ascending, each set of observed labels puts each label at
      a known position, and the positional weights become these per-label
      weights. */
  lemma ScoreWeights(classes: seq<int>, prob: seq<real>)
    requires StrictlyAscending(classes) && |prob| == |classes|
    ensures |classes| == 2 && {classes[0], classes[1]} == {-1, 1} ==>
      MapScore(classes, prob) == 100.0 * ProbOf(classes, prob, 1)
    ensures |classes| == 2 && {classes[0], classes[1]} == {0, 1} ==>
      MapScore(classes, prob) == 100.0 * ProbOf(classes, prob, 1) + 50.0 * ProbOf(classes, prob, 0)
    ensures |classes| == 2 && {classes[0], classes[1]} == {-1, 0} ==>
      MapScore(classes, prob) == 50.0 * ProbOf(classes, prob, 0)
    ensures |classes| == 3 && {classes[0], classes[1], classes[2]} == {-1, 0, 1} ==>
      MapScore(classes, prob) ==
        100.0 * ProbOf(classes, prob, 1) + 50.0 * ProbOf(classes, prob, 0) + 0.0 * ProbOf(classes, prob, -1)
  {
    if |classes| == 3 && {classes[0], classes[1], classes[2]} == {-1, 0, 1} {
      assert classes[0] < classes[1] < classes[2];
      assert classes == [-1, 0, 1] by {
        assert -1 in {classes[0], classes[1], classes[2]};
        assert 1 in {classes[0], classes[1], classes[2]};
        assert classes[1] in {-1, 0, 1};
      }
      assert ProbOf(classes, prob, 1) == prob[2] by {
        assert classes[1..][1..] == [1];
      }
      assert ProbOf(classes, prob, 0) == prob[1] by {
        assert classes[1..][0] == 0;
      }
    } else if |classes| == 2 {
      assert classes[0] < classes[1];
      assert classes[1..][0] == classes[1];
      var present := {classes[0], classes[1]};
      if present == {-1, 1} || present == {0, 1} || present == {-1, 0} {
        assert classes[0] in present && classes[1] in present;
        assert classes[1] == 1 || (present == {-1, 0} && classes[1] == 0) by {
          if present == {-1, 0} {
            assert 0 in present;
          } else {
            assert 1 in present;
          }
        }
      }
    }
  }

  /** With probabilities that form a distribution the score stays on the
      0-100 scale, and with only negative and neutral labels it cannot
      exceed the neutral 50. */
  lemma ScoreBounds(classes: seq<int>, prob: seq<real>)
    requires |prob| == |classes|
    ensures IsDistribution(prob, |classes|) ==> 0.0 <= MapScore(classes, prob) <= 100.0
    ensures IsDistribution(prob, |classes|) && |classes| == 2 && {classes[0], classes[1]} == {-1, 0} ==>
      MapScore(classes, prob) <= 50.0
  {
    if |classes| == 2 {
      assert Sum(prob) == prob[0] + prob[1] by {
        assert Sum(prob[1..]) == prob[1] + Sum(prob[1..][1..]);
        assert prob[1..][1..] == [];
      }
    } else if |classes| == 3 {
      assert Sum(prob) == prob[0] + prob[1] + prob[2] by {
        assert Sum(prob[1..]) == prob[1] + Sum(prob[1..][1..]);
        assert Sum(prob[1..][1..]) == prob[2] + Sum(prob[1..][1..][1..]);
        assert prob[1..][1..][1..] == [];
      }
    }
  }

  /** The anchored sum of two classes, written out. */
  lemma AnchoredSumOfTwo(classes: seq<int>, prob: seq<real>)
    requires |classes| == |prob| == 2
    ensures AnchoredSum(classes, prob) == Anchor(classes[0]) * prob[0] + Anchor(classes[1]) * prob[1]
  {
    assert AnchoredSum(classes[1..], prob[1..]) ==
      Anchor(classes[1]) * prob[1] + AnchoredSum(classes[1..][1..], prob[1..][1..]);
    assert classes[1..][1..] == [];
  }

  /** The anchored sum of three classes, written out. */
  lemma AnchoredSumOfThree(classes: seq<int>, prob: seq<real>)
    requires |classes| == |prob| == 3
    ensures AnchoredSum(classes, prob) ==
      Anchor(classes[0]) * prob[0] + Anchor(classes[1]) * prob[1] + Anchor(classes[2]) * prob[2]
  {
    AnchoredSumOfTwo(classes[1..], prob[1..]);
  }

  /** Strictly ascending integers are spread at least one apart. */
  lemma {:induction false} AscendingSpread(s: seq<int>)
    requires StrictlyAscending(s) && |s| > 0
    ensures s[|s| - 1] - s[0] >= |s| - 1
    decreases |s|
  {
    if |s| > 1 {
      var prefix := s[..|s| - 1];
      assert StrictlyAscending(prefix) by {
        forall i, j | 0 <= i < j < |prefix| ensures prefix[i] < prefix[j] {
          assert prefix[i] == s[i] && prefix[j] == s[j];
        }
      }
      AscendingSpread(prefix);
      assert prefix[|prefix| - 1] == s[|s| - 2] < s[|s| - 1];
    }
  }

  /** At most three distinct labels can be observed among -1, 0 and 1. */
  lemma AtMostThreeClasses(classes: seq<int>)
    requires StrictlyAscending(classes)
    requires forall i :: 0 <= i < |classes| ==> -1 <= classes[i] <= 1
    ensures |classes| <= 3
  {
    if |classes| > 0 {
      AscendingSpread(classes);
      assert -1 <= classes[0] && classes[|classes| - 1] <= 1;
    }
  }

  /** Over the labels a user can give, the mapping is the anchored sum for
      every class list of two or three labels and the neutral score for the
      rest (a single observed label, or none). */
  lemma ScoreIsAnchoredSum(classes: seq<int>, prob: seq<real>)
    requires StrictlyAscending(classes) && |prob| == |classes|
    requires forall i :: 0 <= i < |classes| ==> -1 <= classes[i] <= 1
    ensures MapScore(classes, prob) ==
      if |classes| >= 2 then AnchoredSum(classes, prob) else NeutralScore
  {
    AtMostThreeClasses(classes);
    if |classes| == 2 {
      AnchoredSumOfTwo(classes, prob);
    } else if |classes| == 3 {
      assert classes[0] < classes[1] < classes[2];
      assert classes == [-1, 0, 1];
      AnchoredSumOfThree(classes, prob);
    }
  }
}
