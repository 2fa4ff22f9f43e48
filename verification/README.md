# rssai ranking loop, modelled in Dafny

rssai is a feed reader. It gathers article titles from RSS feeds and lets one
user rate articles -1 (not interesting), 0 (neutral) or 1 (interesting). It
then retrains a text classifier on the rated titles and ranks every article
by a predicted 0-100 score. This project models the ranking feedback loop of
`app.py` as pure functions over an in-memory store, a `seq<Article>`:

- deduplicating ingestion of feed entries (`article_exists`, `save_article`,
  the loop of `fetch_rss`), with the `GMT` to `+0000` date rewrite;
- the training gate (`train_model`), with the classifier as an opaque `fit`
  parameter that returns a model (ascending class list and a probability
  function) or raises;
- the score mapping (`predict_rating`) over real numbers;
- the rescoring sweep (`update_predictions`);
- the listing query (`get_articles`) and the rating handler
  (`rate_article`).

It also models the earlier `fetch_rss.py`. That file has the same ingestion
and a rating setter that checks nothing. Module `Contrast` relates the two
programs through the columns they share.

Modules, one per file: `Base` (option type, feed entry, SQLite key
allocation), `Articles` (the table and its invariant `Valid`: unique keys,
unique titles, ratings in {-1,0,1}, scores in [0,100]), `Scoring`,
`Training`, `Ingestion`, `Serving`, `LegacyFetch`, `Contrast`.

Notes on what the code does, which the model follows:

- Nothing counts how often an article has been shown, and nothing limits it.
- Rows with equal predicted ratings come back in no particular order. The
  model states the listing as a permutation sorted by score and leaves the
  order of equal scores open.
- A malformed date makes the date parser raise. Nothing catches it.
- The training gate counts rated articles only. When every rated article
  carries the same label, the classifier library raises. The model requires
  this of `fit` (`Training.ValidFit`): on a single label it returns `None`.
  The sweep then reports `Raised` and changes nothing. A rating that
  triggered it stays stored, because it is committed before the sweep runs,
  and the reply is a server error (`Serving.SingleLabelRatingIsServerError`).
- With two classes, `predict_rating` picks its weights by the set of
  classes, and any set other than {-1,1}, {0,1} or {-1,0} scores 50. With
  three classes it weights the probabilities 0, 50 and 100 by position,
  whatever the three classes are. Whenever every stored rating came through the web
  application's validated setter, a model's classes are two or three of
  -1, 0 and 1 in ascending order, and every score is the anchored sum
  (`Training.SweepScoresAreAnchored`).

## Model

| member | source | states |
|---|---|---|
| Base.NextKey | app.py:43 | A new primary key is larger than every key in use and is 1 or one more than an existing key, as SQLite allocates integer keys |
| Base.IndexOf | app.py:196 | A lookup gives the first position holding the value, and gives none exactly when no position holds it |
| Articles.ArticleExistsIsLookup | app.py:114-115 | The first-match title query finds a row exactly when some row has that exact title |
| Articles.FindById | app.py:196-198 | Lookup by key finds a row carrying that key, and finds nothing exactly when no row carries it |
| Scoring.MapScore | app.py:83-94 | Class lists of length other than 2 or 3, and two-class lists other than {-1,1}, {0,1}, {-1,0}, score the neutral 50 |
| Scoring.PredictRating | app.py:76-96 | No model gives 50; with a model whose probabilities form a distribution the score lies in [0,100] |
| Scoring.ScoreWeights | app.py:86-94 | With ascending classes, the observed label set fixes each label's position, so the weights are 100·P(1) for {-1,1}, 100·P(1)+50·P(0) for {0,1}, 50·P(0) for {-1,0} and 100·P(1)+50·P(0)+0·P(-1) for {-1,0,1} |
| Scoring.ScoreBounds | app.py:84-94 | Probabilities in [0,1] summing to 1 give a score in [0,100] (the column comment's scale), at most 50 when only -1 and 0 were observed |
| Scoring.AtMostThreeClasses | app.py:84-94 | Ascending classes drawn from {-1,0,1} number at most three, so the mapping's length branches cover every class list the web application can produce |
| Scoring.ScoreIsAnchoredSum | app.py:83-94 | For ascending classes drawn from {-1,0,1}, the score equals the reference anchored sum (-1→0, 0→50, 1→100) when at least two labels were observed, and 50 otherwise |
| Training.TrainingSet | app.py:56-63 | Each (english title, rating) pair occurs exactly as often as articles carry that rating and english title, so there is one pair per rated article and the length is the number of rated articles |
| Training.LabelsAreRatings | app.py:62-63 | The labels handed to the fit are exactly the ratings present in the store |
| Training.TrainModel | app.py:55-74 | No model exactly when fewer than 5 articles are rated; otherwise fit sees only rated titles and ratings, and a model's classes are exactly the ratings present in the store |
| Training.ModelHasTwoClasses | app.py:65-70 | A model is only ever trained on at least two distinct labels, so it has at least two classes |
| Training.TrainingSetIgnoresScores | app.py:56-63 | Stores that differ only in predicted ratings give the same training data |
| Training.TrainingSetSkipsUnrated | app.py:56 | Adding an unrated article leaves the training data unchanged |
| Training.Rescore | app.py:105-109 | Every article gets the model's score for its english title, in [0,100], and no other field changes |
| Training.UpdatePredictions | app.py:98-112 | Below the threshold, or when the fit raises, the store is unchanged; otherwise every predicted rating is replaced by the model's score; keys, titles, links, dates and ratings never change and the invariant is kept |
| Training.SweepIdempotent | app.py:98-111 | A second sweep right after a first one changes nothing |
| Training.SweepScoresAreAnchored | app.py:98-111 | When all stored ratings are in {-1,0,1}, a rescored article carries the anchored sum of its class probabilities, and the model has at least two classes |
| Training.SingleLabelSweepRaises | app.py:98-112 | With at least 5 rated articles all rated alike, the fit raises, the sweep reports it, and the store is unchanged |
| Ingestion.NormalizeZone | app.py:119 | The rewritten text starts with the `+` of `+0000` exactly where the date text starts with `GMT`, and with its own first character otherwise |
| Ingestion.NormalizeZoneReplaces | app.py:119 | Each `GMT` becomes `+0000`: text before the first occurrence is kept, the occurrence is replaced, and the rest is rewritten the same way |
| Ingestion.NormalizeZoneRemovesGmt | app.py:119 | After the replacement no `GMT` remains in the date text |
| Ingestion.NormalizeZoneKeepsClean | app.py:119 | Date text without `GMT` is left unchanged |
| Ingestion.NormalizeZoneIdempotent | app.py:119 | Applying the replacement twice is the same as applying it once |
| Ingestion.DateText | app.py:118-119 | A date is stored exactly when one is given; it is the given text with every `GMT` rewritten, contains no `GMT`, and is kept verbatim when it had none |
| Ingestion.SaveArticle | app.py:117-129 | Appends one row with a fresh key, the given title, link and english title, the date text with every `GMT` rewritten, and no rating and no prediction; earlier rows are kept |
| Ingestion.IngestEntry | app.py:138-141 | An entry whose title is stored changes nothing; otherwise the entry is saved exactly as `SaveArticle` saves its title, link, rewritten date and translated title, which appends one row with that title; the invariant is kept |
| Ingestion.IngestEntries | app.py:135-141 | Stored rows are kept as a prefix and every entry's title is stored afterwards |
| Ingestion.IngestNewRows | app.py:137-141 | Every added row has a title absent before and no rating or prediction; its link, translated title and rewritten date come from the first entry carrying that title, so a later entry with the same title is skipped |
| Ingestion.IngestPreservesValid | app.py:137-141 | Ingestion keeps keys and titles unique (the unique title column, app.py:44) and the rest of the invariant |
| Ingestion.IngestKnownTitles | app.py:137-141 | A batch whose titles are all stored adds nothing |
| Ingestion.IngestIdempotent | app.py:131-141 | Re-running the same batch adds nothing |
| Ingestion.IngestKeepsRated | app.py:137-141 | Ingestion adds only unrated rows, so the set of rated articles, and with it the training gate, is unchanged |
| Ingestion.FetchRss | app.py:131-144 | Ingestion is followed by one sweep over the whole table, which changes only predicted ratings: with a model every row, new ones included, carries the model's score for its english title; otherwise the ingested rows are kept as they are. The gate sees only the ratings stored before, every entry's title is stored, and the invariant is kept |
| Serving.ListedRows | app.py:159 | Each row with rating unset, 0 or -1 is kept as often as it is stored, and every other row is dropped |
| Serving.GetArticles | app.py:159 | The listing is a permutation of exactly the rows rated unset, 0 or -1, ordered by descending predicted rating with unscored rows last |
| Serving.Rank | app.py:159 | The rows come back as a permutation of the input, in descending predicted rating with unscored rows last |
| Serving.UnscoredLast | app.py:159 | In a ranked list, as the listing is, every scored row precedes every unscored row (`nullslast`) |
| Serving.RateArticle | app.py:191-207 | Unknown key: not found and no change, whatever the rating. Rating outside {-1,0,1}: invalid and no change. Otherwise only that row's rating is set, the sweep runs on the result, and the reply is a server error exactly when the fit raises; the invariant is kept |
| Serving.SetRating | app.py:200-201 | Only the row at the found position changes, and only in its rating; predicted ratings are kept; an accepted rating keeps the invariant |
| Serving.RatingJoinsTrainingData | app.py:200-206 | After a rating of -1, 0 or 1 is saved, the sweep's training data holds that article's english title with the new label |
| Serving.SingleLabelRatingIsServerError | app.py:200-206 | With at least 5 ratings all equal to the submitted one, the rating is committed with scores unchanged and the reply is a server error |
| Serving.PositiveRatingUnlists | app.py:196-206 | After rating an article 1 it no longer appears in the listing |
| Serving.NonPositiveRatingStaysListed | app.py:159 | After rating an article 0 or -1 it is still listed |
| LegacyFetch.FindById | fetch_rss.py:59 | Lookup by key finds a row with that key, and finds nothing exactly when none has it |
| LegacyFetch.ArticleExistsIsLookup | fetch_rss.py:23-24 | The first-match title query finds a row exactly when some row has that exact title |
| LegacyFetch.SaveArticle | fetch_rss.py:27-30 | Appends a row with a fresh key, the entry's title and link, and no rating |
| LegacyFetch.IngestEntry | fetch_rss.py:40-41 | An entry whose title is stored changes nothing, otherwise it is saved; unique titles and keys stay unique |
| LegacyFetch.IngestEntries | fetch_rss.py:33-41 | Stored rows are kept as a prefix and every entry's title is stored afterwards |
| LegacyFetch.IngestKeepsUnique | fetch_rss.py:40-41 | Titles (the unique column, fetch_rss.py:14) and keys stay unique through ingestion |
| LegacyFetch.IngestNewRows | fetch_rss.py:39-41 | Every added row has a title absent before and no rating; its link comes from the first entry carrying that title, so a later entry with the same title is skipped |
| LegacyFetch.IngestKnownTitles | fetch_rss.py:39-41 | A batch whose titles are all stored adds nothing |
| LegacyFetch.IngestIdempotent | fetch_rss.py:33-41 | Running the fetch twice over the same entries adds nothing the second time |
| LegacyFetch.RateArticle | fetch_rss.py:57-64 | Unknown key: not found and no change. Known key: that row gets the submitted rating with no range check, and no other row changes |
| Contrast.FindByIdAgrees | fetch_rss.py:59 | Both programs' key lookups find the same row of the shared columns |
| Contrast.IngestEntryAgrees | fetch_rss.py:40-41 | One step of either ingestion loop makes the same decision and stores the same key, title, link and rating |
| Contrast.IngestAgrees | fetch_rss.py:33-41 | Both ingestion loops produce the same keys, titles, links and ratings for the same entries |
| Contrast.SettersAgreeOnAcceptedRatings | fetch_rss.py:57-64 | For ratings in {-1,0,1}, both setters give the same not-found outcome and the same shared columns afterwards |
| Contrast.SettersDisagreeOtherwise | fetch_rss.py:59-63 | For a known key and a rating outside {-1,0,1}, the web application refuses and changes nothing, while the earlier setter stores the value |

## Left out

- Scoring.PredictRating: the result is not rounded to two decimals. Scores are exact reals, so the [0,100] bound is stated before rounding.
- TF-IDF vectorisation and logistic regression (app.py:65-70) are left out. `fit` and the probability function are parameters. Their library guarantees are stated as `Training.ValidFit`: ascending classes equal to the distinct labels, a probability distribution of matching length for every title, and a raise when fewer than two distinct labels occur.
- Training.UpdatePredictions, Serving.RateArticle and Ingestion.FetchRss require `ValidFit`. This is the library's promise, not a check the code makes.
- Ingestion.DateText: an empty date text is stored as the empty text (the code skips the rewrite, which would not change it). In the code the date column then refuses the text at commit (app.py:129) and the fetch aborts. The model does not represent that failure.
- Date parsing and formatting (app.py:120, 166) are left out. The stored date is the normalised text the parser would read. A malformed date raises in the code and aborts the fetch, which the model does not represent.
- Translation (app.py:14-32) is left out. Argos setup is not modelled and `translate_text` is a function parameter. Because that function returns the original text on failure, `englishTitle` is always a string in the model.
- Flask routing, JSON encoding, templates and SQLAlchemy sessions are replaced by an in-memory sequence. Each save commits on its own in the code, and in a sequential model that makes no difference.
- The background thread, its loop and its 600-second sleep (app.py:146-154) are left out, as is the startup sweep (app.py:229-233). The model is sequential. Feed list reading and fetching (app.py:132-137) are left out; the entries of all feeds arrive as one sequence.
- `get_all_articles` and `get_read_articles` (app.py:175-188, 209-223) are left out. They are read-only listings ordered by date and play no part in ranking.
- The legacy paginated listing (fetch_rss.py:44-53) is left out.
- Request parsing is simplified. The article key is an integer and a rating is an optional integer. Python also treats `True` and `1.0` as equal to 1 when checking the rating, and the legacy setter stores any JSON value; neither is modelled.
