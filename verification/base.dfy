/** Small shared vocabulary: optional values, the primary-key allocator of the
    underlying SQLite table, and the shape of a feed entry as the feed reader
    hands it over. */
module Base {

  /** Python's `None` or a present value. */
  datatype Option<+T> = None | Some(value: T)

  /** One entry of a parsed feed: its title, its link and, when the feed
      carries one, the raw text of its publication date. */
  datatype FeedEntry = FeedEntry(title: string, link: string, published: Option<string>)

  /** `entries[k]` is the first entry of the batch with this title. */
  predicate FirstWithTitle(entries: seq<FeedEntry>, k: int, title: string) {
    0 <= k < |entries| && entries[k].title == title &&
    forall j :: 0 <= j < k ==> entries[j].title != title
  }

  /** The first entry with a title in the batch's tail is the first in the
      whole batch when the head carries another title. */
  lemma FirstWithTitleShift(entries: seq<FeedEntry>, k: int, title: string)
    requires |entries| > 0 && entries[0].title != title
    requires FirstWithTitle(entries[1..], k, title)
    ensures FirstWithTitle(entries, k + 1, title)
  {
    forall j | 1 <= j < k + 1 ensures entries[j].title != title {
      assert entries[j] == entries[1..][j - 1];
    }
  }

  /** The key SQLite gives a new row of a table whose primary key is an
      INTEGER column: one more than the largest key in use, or 1 in an empty
      table. */
  function NextKey(keys: seq<nat>): (k: nat)
    ensures k >= 1
    ensures forall i :: 0 <= i < |keys| ==> keys[i] < k
    ensures k == 1 || exists i :: 0 <= i < |keys| && k == keys[i] + 1
  {
    if |keys| == 0 then 1
    else
      var rest := NextKey(keys[..|keys| - 1]);
      var last := keys[|keys| - 1] + 1;
      if rest < last then last else rest
  }

  /** The first position of `x` in `xs`, the answer of a query that keeps
      the first matching row; none exactly when `x` does not occur. */
  function IndexOf<T(==)>(xs: seq<T>, x: T): (r: Option<nat>)
    ensures r.Some? ==> r.value < |xs| && xs[r.value] == x
    ensures r.Some? ==> forall i :: 0 <= i < r.value ==> xs[i] != x
    ensures r.None? <==> forall i :: 0 <= i < |xs| ==> xs[i] != x
  {
    if |xs| == 0 then None
    else if xs[0] == x then Some(0)
    else
      match IndexOf(xs[1..], x)
      case None => None
      case Some(k) => Some(k + 1)
  }
}
