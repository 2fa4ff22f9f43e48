/** `fetch_rss.py`, the earlier stand-alone variant: the same deduplicating
    ingestion over a table without translation, dates or predictions, and a
    rating setter that stores whatever value it is given. */
module LegacyFetch {
  import opened Base

  /** One row of the earlier table. */
  datatype LegacyArticle = LegacyArticle(id: nat, title: string, link: string, rating: Option<int>)

  ghost predicate UniqueTitles(store: seq<LegacyArticle>) {
    forall i, j :: 0 <= i < j < |store| ==> store[i].title != store[j].title
  }

  ghost predicate UniqueIds(store: seq<LegacyArticle>) {
    forall i, j :: 0 <= i < j < |store| ==> store[i].id != store[j].id
  }

  function Ids(store: seq<LegacyArticle>): (ids: seq<nat>)
    ensures |ids| == |store|
    ensures forall i :: 0 <= i < |store| ==> ids[i] == store[i].id
  {
    seq(|store|, i requires 0 <= i < |store| => store[i].id)
  }

  function Titles(store: seq<LegacyArticle>): (ts: seq<string>)
    ensures |ts| == |store|
    ensures forall i :: 0 <= i < |store| ==> ts[i] == store[i].title
  {
    seq(|store|, i requires 0 <= i < |store| => store[i].title)
  }

  /** `article_exists`: some row has exactly this title (an exact,
      case-sensitive comparison). */
  predicate ArticleExists(store: seq<LegacyArticle>, title: string) {
    exists i :: 0 <= i < |store| && store[i].title == title
  }

  /** `article_exists` asks for the first row with the title and checks
      that there is one; that answer is exactly `ArticleExists`. */
  lemma ArticleExistsIsLookup(store: seq<LegacyArticle>, title: string)
    ensures ArticleExists(store, title) <==> IndexOf(Titles(store), title).Some?
  {
    if ArticleExists(store, title) {
      var i :| 0 <= i < |store| && store[i].title == title;
      assert Titles(store)[i] == title;
    }
  }

  /** `Article.query.get`: the position of the row with key `id`. */
  function FindById(store: seq<LegacyArticle>, id: int): (r: Option<nat>)
    ensures r.Some? ==> r.value < |store| && store[r.value].id == id
    ensures r.None? <==> forall i :: 0 <= i < |store| ==> store[i].id != id
  {
    IndexOf<int>(Ids(store), id)
  }

  /** `save_article`: a new row with a fresh key and no rating. */
  function SaveArticle(store: seq<LegacyArticle>, title: string, link: string): (r: seq<LegacyArticle>)
    ensures |r| == |store| + 1 && r[..|store|] == store
    ensures r[|store|].title == title && r[|store|].link == link && r[|store|].rating.None?
    ensures forall i :: 0 <= i < |store| ==> store[i].id != r[|store|].id
  {
    store + [LegacyArticle(NextKey(Ids(store)), title, link, None)]
  }

  /** One pass of the loop body of `fetch_rss`. */
  function IngestEntry(store: seq<LegacyArticle>, e: FeedEntry): (r: seq<LegacyArticle>)
    ensures ArticleExists(store, e.title) ==> r == store
    ensures !ArticleExists(store, e.title) ==> r == SaveArticle(store, e.title, e.link)
    ensures ArticleExists(r, e.title)
    ensures UniqueTitles(store) ==> UniqueTitles(r)
    ensures UniqueIds(store) ==> UniqueIds(r)
  {
    if ArticleExists(store, e.title) then store
    else
      var r := SaveArticle(store, e.title, e.link);
      assert r[|store|].title == e.title;
      r
  }

  /** `fetch_rss()` over every entry of every feed. */
  function IngestEntries(store: seq<LegacyArticle>, entries: seq<FeedEntry>): (r: seq<LegacyArticle>)
    ensures |store| <= |r| && r[..|store|] == store
    ensures forall k :: 0 <= k < |entries| ==> ArticleExists(r, entries[k].title)
    decreases |entries|
  {
    if |entries| == 0 then store
    else
      var next := IngestEntry(store, entries[0]);
      var r := IngestEntries(next, entries[1..]);
      assert r[..|store|] == store by {
        assert r[..|next|][..|store|] == store;
      }
      assert forall k :: 0 <= k < |entries| ==> ArticleExists(r, entries[k].title) by {
        forall k | 0 <= k < |entries|
          ensures ArticleExists(r, entries[k].title)
        {
          if k == 0 {
            var j :| 0 <= j < |next| && next[j].title == entries[0].title;
            assert r[j] == r[..|next|][j];
          } else {
            assert entries[1..][k - 1] == entries[k];
          }
        }
      }
      r
  }

  /** Titles and keys stay unique through ingestion. */
  lemma {:induction false} IngestKeepsUnique(store: seq<LegacyArticle>, entries: seq<FeedEntry>)
    requires UniqueTitles(store) && UniqueIds(store)
    ensures UniqueTitles(IngestEntries(store, entries)) && UniqueIds(IngestEntries(store, entries))
    decreases |entries|
  {
    if |entries| > 0 {
      IngestKeepsUnique(IngestEntry(store, entries[0]), entries[1..]);
    }
  }

  /** A row the batch adds has a title not stored before, the link of the
      first entry with that title (a later entry with the same title is
      skipped), and no rating. */
  lemma {:induction false} IngestNewRows(store: seq<LegacyArticle>, entries: seq<FeedEntry>, i: nat)
    ensures |store| <= i < |IngestEntries(store, entries)| ==>
      var a := IngestEntries(store, entries)[i];
      !ArticleExists(store, a.title) && a.rating.None? &&
      exists k :: FirstWithTitle(entries, k, a.title) && a.link == entries[k].link
    decreases |entries|
  {
    var r := IngestEntries(store, entries);
    if |store| <= i < |r| {
      var next := IngestEntry(store, entries[0]);
      assert r == IngestEntries(next, entries[1..]);
      if i < |next| {
        assert !ArticleExists(store, entries[0].title);
        var saved := SaveArticle(store, entries[0].title, entries[0].link);
        assert next == saved;
        assert i == |store|;
        assert r[i] == r[..|next|][i] == saved[|store|];
        assert FirstWithTitle(entries, 0, r[i].title);
      } else {
        IngestNewRows(next, entries[1..], i);
        var k :| FirstWithTitle(entries[1..], k, r[i].title) && r[i].link == entries[1..][k].link;
        assert entries[0].title != r[i].title by {
          assert ArticleExists(next, entries[0].title) && !ArticleExists(next, r[i].title);
        }
        FirstWithTitleShift(entries, k, r[i].title);
        assert entries[k + 1] == entries[1..][k];
        assert !ArticleExists(store, r[i].title) by {
          forall j | 0 <= j < |store| ensures store[j].title != r[i].title {
            assert next[j] == next[..|store|][j] == store[j];
          }
        }
      }
    }
  }

  /** Entries whose titles are all stored add nothing. */
  lemma {:induction false} IngestKnownTitles(store: seq<LegacyArticle>, entries: seq<FeedEntry>)
    requires forall k :: 0 <= k < |entries| ==> ArticleExists(store, entries[k].title)
    ensures IngestEntries(store, entries) == store
    decreases |entries|
  {
    if |entries| > 0 {
      forall k | 0 <= k < |entries[1..]| ensures ArticleExists(store, entries[1..][k].title) {
        assert entries[1..][k] == entries[k + 1];
      }
      IngestKnownTitles(store, entries[1..]);
    }
  }

  /** Running `fetch_rss` twice over the same entries adds nothing the
      second time. */
  lemma IngestIdempotent(store: seq<LegacyArticle>, entries: seq<FeedEntry>)
    ensures IngestEntries(IngestEntries(store, entries), entries) == IngestEntries(store, entries)
  {
    IngestKnownTitles(IngestEntries(store, entries), entries);
  }

  /** The replies of `/api/rate`. */
  datatype LegacyReply = RatingSaved | ArticleNotFound

  datatype LegacyRateResult = LegacyRateResult(reply: LegacyReply, store: seq<LegacyArticle>)

  /** `rate_article()`: an unknown id changes nothing; a known one gets the
      submitted rating, whatever it is (a JSON null clears the rating). */
  function RateArticle(store: seq<LegacyArticle>, id: int, rating: Option<int>): (r: LegacyRateResult)
    ensures FindById(store, id).None? <==> r.reply.ArticleNotFound?
    ensures r.reply.ArticleNotFound? ==> r.store == store
    ensures |r.store| == |store|
    ensures forall i :: 0 <= i < |store| ==>
      r.store[i].id == store[i].id && r.store[i].title == store[i].title && r.store[i].link == store[i].link
    ensures r.reply.RatingSaved? ==> forall i :: 0 <= i < |store| ==>
      r.store[i].rating == if i == FindById(store, id).value then rating else store[i].rating
  {
    match FindById(store, id)
    case None => LegacyRateResult(ArticleNotFound, store)
    case Some(k) => LegacyRateResult(RatingSaved, store[k := store[k].(rating := rating)])
  }
}
