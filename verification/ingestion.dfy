/** `article_exists`, `save_article` and the loop of `fetch_rss` in the web
    application: deduplicating ingestion of feed entries keyed on the exact
    title. Reading the feed list, fetching the feeds, translating titles and
    parsing dates are not part of this model: the entries arrive as a
    sequence (all feeds one after the other) and translation is a parameter. */
module Ingestion {
  import opened Base
  import opened Articles
  import opened Scoring
  import opened Training

  /** The text `GMT` occurs at position `i` of `s`. */
  predicate GmtAt(s: string, i: int) {
    0 <= i && i + 3 <= |s| && s[i] == 'G' && s[i + 1] == 'M' && s[i + 2] == 'T'
  }

  predicate NoGmt(s: string) {
    forall i :: 0 <= i < |s| ==> !GmtAt(s, i)
  }

  /** Python's string replacement of `GMT` by `+0000`: every occurrence,
      scanned left to right without overlap. The result starts with the `+`
      of a replacement exactly where the text starts with `GMT`, and with
      the text's own first character otherwise. */
  function NormalizeZone(s: string): (r: string)
    ensures |s| > 0 ==> |r| > 0 && r[0] == if GmtAt(s, 0) then '+' else s[0]
    decreases |s|
  {
    if |s| < 3 then s
    else if GmtAt(s, 0) then "+0000" + NormalizeZone(s[3..])
    else [s[0]] + NormalizeZone(s[1..])
  }

  /** After normalisation no `GMT` is left. */
  lemma {:induction false} NormalizeZoneRemovesGmt(s: string)
    ensures NoGmt(NormalizeZone(s))
    decreases |s|
  {
    var r := NormalizeZone(s);
    if |s| < 3 {
    } else if GmtAt(s, 0) {
      var rest := NormalizeZone(s[3..]);
      NormalizeZoneRemovesGmt(s[3..]);
      forall i ensures !GmtAt(r, i) {
        if 5 <= i {
          assert !GmtAt(rest, i - 5);
        }
      }
    } else {
      var rest := NormalizeZone(s[1..]);
      NormalizeZoneRemovesGmt(s[1..]);
      forall i ensures !GmtAt(r, i) {
        if 1 <= i {
          assert !GmtAt(rest, i - 1);
        } else if i == 0 && GmtAt(r, 0) {
          assert false;
        }
      }
    }
  }

  /** A date text without `GMT` is left exactly as it is. */
  lemma {:induction false} NormalizeZoneKeepsClean(s: string)
    requires NoGmt(s)
    ensures NormalizeZone(s) == s
    decreases |s|
  {
    if |s| >= 3 {
      assert !GmtAt(s, 0);
      forall i ensures !GmtAt(s[1..], i) {
        assert !GmtAt(s, i + 1);
      }
      NormalizeZoneKeepsClean(s[1..]);
    }
  }

  /** Normalising twice is normalising once. */
  lemma NormalizeZoneIdempotent(s: string)
    ensures NormalizeZone(NormalizeZone(s)) == NormalizeZone(s)
  {
    NormalizeZoneRemovesGmt(s);
    NormalizeZoneKeepsClean(NormalizeZone(s));
  }

  /** Every `GMT` becomes `+0000`: text free of `GMT` up to the first
      occurrence is kept, the occurrence is replaced, and the rest is
      normalised in turn. */
  lemma {:induction false} NormalizeZoneReplaces(a: string, b: string)
    requires NoGmt(a)
    ensures NormalizeZone(a + "GMT" + b) == a + "+0000" + NormalizeZone(b)
    decreases |a|
  {
    var s := a + "GMT" + b;
    if |a| == 0 {
      assert s == "GMT" + b;
      assert GmtAt(s, 0) && s[3..] == b;
    } else {
      var tail := a[1..];
      assert s[1..] == tail + "GMT" + b;
      NoGmtTail(a);
      NormalizeZoneReplaces(tail, b);
      NoGmtBeforeGmt(a, b);
      var rest := NormalizeZone(b);
      assert NormalizeZone(s) == [s[0]] + NormalizeZone(s[1..]);
      assert NormalizeZone(s[1..]) == tail + "+0000" + rest;
      assert s[0] == a[0] && a == [a[0]] + tail;
      assert [a[0]] + (tail + "+0000" + rest) == a + "+0000" + rest;
    }
  }

  /** Dropping the first character keeps a text free of `GMT`. */
  lemma NoGmtTail(a: string)
    requires NoGmt(a) && |a| > 0
    ensures NoGmt(a[1..])
  {
    forall i | 0 <= i < |a[1..]| ensures !GmtAt(a[1..], i) {
      assert !GmtAt(a, i + 1);
    }
  }

  /** `GMT` cannot overlap itself, so a `GMT`-free prefix followed by `GMT`
      does not start with `GMT`. */
  lemma NoGmtBeforeGmt(a: string, b: string)
    requires NoGmt(a) && |a| > 0
    ensures !GmtAt(a + "GMT" + b, 0)
  {
    var s := a + "GMT" + b;
    if |a| >= 3 {
      assert !GmtAt(a, 0);
      assert s[..3] == a[..3];
    } else if |a| == 2 {
      assert s[2] == 'G';
    } else {
      assert s[1] == 'G';
    }
  }

  /** The date text `save_article` hands to the parser: `GMT` rewritten to
      `+0000` when a non-empty date is present. */
  function DateText(published: Option<string>): (d: Option<string>)
    ensures d.None? <==> published.None?
    ensures published.Some? ==> d == Some(NormalizeZone(published.value))
    ensures d.Some? ==> NoGmt(d.value)
    ensures published.Some? && NoGmt(published.value) ==> d == published
  {
    match published
    case None => None
    case Some(raw) =>
      NormalizeZoneRemovesGmt(raw);
      if NoGmt(raw) then NormalizeZoneKeepsClean(raw); Some(NormalizeZone(raw))
      else Some(NormalizeZone(raw))
  }

  /** `save_article`: appends a
      new row with a fresh key and no rating or prediction yet. */
  function SaveArticle(store: seq<Article>, title: string, link: string,
                       published: Option<string>, englishTitle: string): (r: seq<Article>)
    ensures |r| == |store| + 1 && r[..|store|] == store
    ensures r[|store|].title == title && r[|store|].link == link
    ensures r[|store|].englishTitle == englishTitle
    ensures r[|store|].rating.None? && r[|store|].predictedRating.None?
    ensures r[|store|].publishedDate == DateText(published)
    ensures r[|store|].publishedDate.None? <==> published.None?
    ensures r[|store|].publishedDate.Some? ==> NoGmt(r[|store|].publishedDate.value)
    ensures forall i :: 0 <= i < |store| ==> store[i].id != r[|store|].id
  {
    var key := NextKey(Ids(store));
    store + [Article(key, title, link, DateText(published), englishTitle, None, None)]
  }

  /** One pass of the loop body: save the entry unless its title is stored. */
  function IngestEntry(store: seq<Article>, e: FeedEntry, translate: string -> string): (r: seq<Article>)
    ensures ArticleExists(store, e.title) ==> r == store
    ensures !ArticleExists(store, e.title) ==>
      r == SaveArticle(store, e.title, e.link, e.published, translate(e.title))
    ensures !ArticleExists(store, e.title) ==>
      |r| == |store| + 1 && r[..|store|] == store && r[|store|].title == e.title
    ensures ArticleExists(r, e.title)
    ensures Valid(store) ==> Valid(r)
  {
    if ArticleExists(store, e.title) then store
    else
      var r := SaveArticle(store, e.title, e.link, e.published, translate(e.title));
      assert r[|store|].title == e.title;
      r
  }

  /** The loop of `fetch_rss` over every entry of every feed. Stored rows
      are kept as they are and every entry's title ends up stored. */
  function IngestEntries(store: seq<Article>, entries: seq<FeedEntry>,
                         translate: string -> string): (r: seq<Article>)
    ensures |store| <= |r| && r[..|store|] == store
    ensures forall k :: 0 <= k < |entries| ==> ArticleExists(r, entries[k].title)
    decreases |entries|
  {
    if |entries| == 0 then store
    else
      var next := IngestEntry(store, entries[0], translate);
      var r := IngestEntries(next, entries[1..], translate);
      assert r[..|store|] == store by {
        assert r[..|next|][..|store|] == store;
      }
      assert forall k :: 0 <= k < |entries| ==> ArticleExists(r, entries[k].title) by {
        forall k | 0 <= k < |entries|
          ensures ArticleExists(r, entries[k].title)
        {
          if k == 0 {
            var j :| 0 <= j < |next| && next[j].title == entries[0].title;
            assert r[j] == r[..|next|][j];
          } else {
            assert entries[1..][k - 1] == entries[k];
          }
        }
      }
      r
  }

  /** A row the batch adds carries a title that was not stored before, the
      link, translated title and rewritten date of the first entry with that
      title (a later entry with the same title is skipped), and neither a
      rating nor a prediction. */
  lemma {:induction false} IngestNewRows(store: seq<Article>, entries: seq<FeedEntry>,
                                         translate: string -> string, i: nat)
    ensures |store| <= i < |IngestEntries(store, entries, translate)| ==>
      var a := IngestEntries(store, entries, translate)[i];
      !ArticleExists(store, a.title) &&
      a.rating.None? && a.predictedRating.None? &&
      exists k :: FirstWithTitle(entries, k, a.title) &&
        a.link == entries[k].link && a.englishTitle == translate(entries[k].title) &&
        a.publishedDate == DateText(entries[k].published)
    decreases |entries|
  {
    var r := IngestEntries(store, entries, translate);
    if |store| <= i < |r| {
      var next := IngestEntry(store, entries[0], translate);
      assert r == IngestEntries(next, entries[1..], translate);
      if i < |next| {
        assert !ArticleExists(store, entries[0].title);
        var saved := SaveArticle(store, entries[0].title, entries[0].link, entries[0].published,
                                 translate(entries[0].title));
        assert next == saved;
        assert i == |store|;
        assert r[i] == r[..|next|][i];
        assert r[i] == saved[|store|];
        assert FirstWithTitle(entries, 0, r[i].title);
      } else {
        IngestNewRows(next, entries[1..], translate, i);
        var k :| FirstWithTitle(entries[1..], k, r[i].title) &&
          r[i].link == entries[1..][k].link && r[i].englishTitle == translate(entries[1..][k].title) &&
          r[i].publishedDate == DateText(entries[1..][k].published);
        assert entries[0].title != r[i].title by {
          assert ArticleExists(next, entries[0].title) && !ArticleExists(next, r[i].title);
        }
        FirstWithTitleShift(entries, k, r[i].title);
        assert entries[k + 1] == entries[1..][k];
        assert !ArticleExists(store, r[i].title) by {
          forall j | 0 <= j < |store| ensures store[j].title != r[i].title {
            assert next[j] == next[..|store|][j] == store[j];
          }
        }
      }
    }
  }

  /** Ingestion keeps the store invariant; in particular titles stay unique. */
  lemma {:induction false} IngestPreservesValid(store: seq<Article>, entries: seq<FeedEntry>,
                                                translate: string -> string)
    ensures Valid(store) ==> Valid(IngestEntries(store, entries, translate))
    decreases |entries|
  {
    if Valid(store) && |entries| > 0 {
      var next := IngestEntry(store, entries[0], translate);
      IngestPreservesValid(next, entries[1..], translate);
    }
  }

  /** Entries whose titles are all stored already add nothing. */
  lemma {:induction false} IngestKnownTitles(store: seq<Article>, entries: seq<FeedEntry>,
                                             translate: string -> string)
    requires forall k :: 0 <= k < |entries| ==> ArticleExists(store, entries[k].title)
    ensures IngestEntries(store, entries, translate) == store
    decreases |entries|
  {
    if |entries| > 0 {
      assert IngestEntry(store, entries[0], translate) == store;
      forall k | 0 <= k < |entries[1..]| ensures ArticleExists(store, entries[1..][k].title) {
        assert entries[1..][k] == entries[k + 1];
      }
      IngestKnownTitles(store, entries[1..], translate);
    }
  }

  /** Re-running the same batch adds nothing. */
  lemma IngestIdempotent(store: seq<Article>, entries: seq<FeedEntry>, translate: string -> string)
    ensures IngestEntries(IngestEntries(store, entries, translate), entries, translate) ==
            IngestEntries(store, entries, translate)
  {
    IngestKnownTitles(IngestEntries(store, entries, translate), entries, translate);
  }

  /** New rows arrive unrated, so ingestion leaves the set of rated
      articles, and with it the training gate, as it was. */
  lemma IngestKeepsRated(store: seq<Article>, entries: seq<FeedEntry>, translate: string -> string)
    ensures RatedPositions(IngestEntries(store, entries, translate)) == RatedPositions(store)
  {
    var r := IngestEntries(store, entries, translate);
    forall i: nat | i < |r| ensures (i in RatedPositions(r)) <==> (i in RatedPositions(store)) {
      if i < |store| {
        assert r[i] == r[..|store|][i];
      } else {
        IngestNewRows(store, entries, translate, i);
      }
    }
  }

  /** A sweep after ingestion keeps the earlier rows, up to their
      predictions, and the stored titles. */
  lemma SweepKeepsIngested(store: seq<Article>, ingested: seq<Article>, swept: seq<Article>,
                           entries: seq<FeedEntry>)
    requires |store| <= |ingested| && ingested[..|store|] == store
    requires forall k :: 0 <= k < |entries| ==> ArticleExists(ingested, entries[k].title)
    requires |swept| == |ingested|
    requires forall i :: 0 <= i < |ingested| ==> SameExceptPrediction(swept[i], ingested[i])
    ensures forall i :: 0 <= i < |store| ==> SameExceptPrediction(swept[i], store[i])
    ensures forall k :: 0 <= k < |entries| ==> ArticleExists(swept, entries[k].title)
  {
    forall i | 0 <= i < |store| ensures SameExceptPrediction(swept[i], store[i]) {
      assert ingested[i] == ingested[..|store|][i];
    }
    forall k | 0 <= k < |entries| ensures ArticleExists(swept, entries[k].title) {
      var j :| 0 <= j < |ingested| && ingested[j].title == entries[k].title;
      SameExceptPredictionKeeps(swept[j], ingested[j]);
    }
  }

  /** A rescoring sweep scores every row by the english title it still
      carries afterwards. */
  lemma SweepScoresOwnTitles(store: seq<Article>, fit: Fit)
    requires ValidFit(fit)
    ensures var r := UpdatePredictions(store, fit);
      r.outcome.Rescored? ==> forall i :: 0 <= i < |r.store| ==>
        r.store[i].predictedRating ==
          Some(PredictRating(r.store[i].englishTitle, Some(TrainModel(store, fit).m)))
  {
    var r := UpdatePredictions(store, fit);
    forall i | 0 <= i < |r.store| ensures r.store[i].englishTitle == store[i].englishTitle {
      SameExceptPredictionKeeps(r.store[i], store[i]);
    }
  }

  /** `fetch_rss()`: ingest every entry, then run one rescoring sweep over
      the whole table, new rows included. */
  function FetchRss(store: seq<Article>, entries: seq<FeedEntry>, translate: string -> string,
                    fit: Fit): (r: Sweep)
    requires ValidFit(fit)
    ensures |store| <= |r.store| == |IngestEntries(store, entries, translate)|
    ensures forall i :: 0 <= i < |r.store| ==>
      SameExceptPrediction(r.store[i], IngestEntries(store, entries, translate)[i])
    ensures forall i :: 0 <= i < |store| ==> SameExceptPrediction(r.store[i], store[i])
    ensures forall k :: 0 <= k < |entries| ==> ArticleExists(r.store, entries[k].title)
    ensures r.outcome.NotEnoughData? <==> |RatedPositions(store)| < MinTrainSamples
    ensures r.outcome.Rescored? <==> TrainModel(IngestEntries(store, entries, translate), fit).Model?
    ensures !r.outcome.Rescored? ==> r.store == IngestEntries(store, entries, translate)
    ensures r.outcome.Rescored? ==> forall i :: 0 <= i < |r.store| ==>
      r.store[i].predictedRating ==
        Some(PredictRating(r.store[i].englishTitle, Some(TrainModel(IngestEntries(store, entries, translate), fit).m)))
    ensures Valid(store) ==> Valid(r.store)
  {
    var ingested := IngestEntries(store, entries, translate);
    IngestPreservesValid(store, entries, translate);
    IngestKeepsRated(store, entries, translate);
    var r := UpdatePredictions(ingested, fit);
    SweepKeepsIngested(store, ingested, r.store, entries);
    SweepScoresOwnTitles(ingested, fit);
    r
  }
}
