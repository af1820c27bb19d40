/** The bounded, deduplicating URL history of index.js: the `urls` table
    (`id` AUTOINCREMENT, `url` UNIQUE, `added_at`), its read `getLastUrls`
    and its update `addUrlToHistory`.

    "Newest" is insertion order: a row's `id` stands for its `added_at`
    (see README.md for this assumption). */
module History {

  /** MAX_URLS: how many URLs the table keeps and getLastUrls returns. */
  const MaxUrls: nat := 20

  type Url = string

  /** One row of the `urls` table. */
  datatype Entry = Entry(id: nat, url: Url)

  /** The rows of the table, oldest first, and the id AUTOINCREMENT gives next. */
  datatype Table = Table(rows: seq<Entry>, nextId: nat)

  function Min(a: int, b: int): int { if a <= b then a else b }

  /** The `url` column. */
  function Urls(rows: seq<Entry>): (us: seq<Url>)
    ensures |us| == |rows|
    ensures forall i :: 0 <= i < |rows| ==> us[i] == rows[i].url
  {
    if rows == [] then [] else Urls(rows[..|rows| - 1]) + [rows[|rows| - 1].url]
  }

  /** What the table's schema guarantees: ids increase in insertion order and
      stay below the next id, and the UNIQUE url column has no duplicate. */
  predicate WellFormed(t: Table) {
    && (forall i, j :: 0 <= i < j < |t.rows| ==> t.rows[i].id < t.rows[j].id)
    && (forall i :: 0 <= i < |t.rows| ==> t.rows[i].id < t.nextId)
    && (forall i, j :: 0 <= i < j < |t.rows| ==> t.rows[i].url != t.rows[j].url)
  }

  /** The rows `ORDER BY added_at DESC LIMIT MAX_URLS` selects, oldest first. */
  function Newest(rows: seq<Entry>): seq<Entry> {
    if |rows| <= MaxUrls then rows else rows[|rows| - MaxUrls..]
  }

  /** The `url` column of `rows`, newest first. */
  function NewestFirst(rows: seq<Entry>): (us: seq<Url>)
    ensures |us| == |rows|
    ensures forall i :: 0 <= i < |rows| ==> us[i] == rows[|rows| - 1 - i].url
  {
    if rows == [] then [] else [rows[|rows| - 1].url] + NewestFirst(rows[..|rows| - 1])
  }

  /** getLastUrls: at most MaxUrls urls, the newest first. */
  function LastUrls(rows: seq<Entry>): (us: seq<Url>)
    ensures |us| == Min(|rows|, MaxUrls)
    ensures forall i :: 0 <= i < |us| ==> us[i] == rows[|rows| - 1 - i].url
  {
    NewestFirst(Newest(rows))
  }

  /** addUrlToHistory on the table: `INSERT OR IGNORE` a row for `url`, then,
      when the count exceeds MaxUrls, delete every row but the MaxUrls newest. */
  function Add(t: Table, url: Url): (r: Table)
    ensures |r.rows| <= MaxUrls
  {
    var inserted :=
      if url in Urls(t.rows) then t else Table(t.rows + [Entry(t.nextId, url)], t.nextId + 1);
    Table(Newest(inserted.rows), inserted.nextId)
  }

  /** What addUrlToHistory does to a table within the cap: nothing for a
      stored url; otherwise a row with the next id is appended, and the
      oldest row deleted when the table was full. */
  lemma {:induction false} AddCases(t: Table, url: Url)
    requires |t.rows| <= MaxUrls
    ensures url in Urls(t.rows) ==> Add(t, url) == t
    ensures url !in Urls(t.rows) ==> Add(t, url).nextId == t.nextId + 1
    ensures url !in Urls(t.rows) && |t.rows| < MaxUrls ==>
              Add(t, url).rows == t.rows + [Entry(t.nextId, url)]
    ensures url !in Urls(t.rows) && |t.rows| == MaxUrls ==>
              Add(t, url).rows == t.rows[1..] + [Entry(t.nextId, url)]
  {
    if url !in Urls(t.rows) && |t.rows| == MaxUrls {
      var ext := t.rows + [Entry(t.nextId, url)];
      assert ext[|ext| - MaxUrls..] == t.rows[1..] + [Entry(t.nextId, url)];
    }
  }

  /** The table after addUrlToHistory has been called with each of `urls` in turn. */
  function AddAll(t: Table, urls: seq<Url>): (r: Table)
    ensures urls != [] ==> |r.rows| <= MaxUrls
  {
    if urls == [] then t else Add(AddAll(t, urls[..|urls| - 1]), urls[|urls| - 1])
  }

  /** No url occurs twice: each one is absent from those before it. */
  predicate Distinct(urls: seq<Url>) {
    urls == [] || (Distinct(urls[..|urls| - 1]) && urls[|urls| - 1] !in urls[..|urls| - 1])
  }

  /** Appending a row for an absent url, with the next id, keeps the schema's guarantees. */
  lemma {:induction false} AppendKeepsWellFormed(t: Table, url: Url)
    requires WellFormed(t) && url !in Urls(t.rows)
    ensures WellFormed(Table(t.rows + [Entry(t.nextId, url)], t.nextId + 1))
  {
    var ext := t.rows + [Entry(t.nextId, url)];
    forall i | 0 <= i < |t.rows| ensures ext[i] == t.rows[i] && ext[i].url != url {
      assert Urls(t.rows)[i] == t.rows[i].url;
    }
  }

  /** Deleting the oldest rows keeps the schema's guarantees. */
  lemma {:induction false} SuffixKeepsWellFormed(t: Table, k: nat)
    requires WellFormed(t) && k <= |t.rows|
    ensures WellFormed(Table(t.rows[k..], t.nextId))
  {
    var kept := t.rows[k..];
    assert forall i :: 0 <= i < |kept| ==> kept[i] == t.rows[i + k];
  }

  /** Keeping only the MaxUrls newest rows keeps the schema's guarantees. */
  lemma {:induction false} NewestKeepsWellFormed(t: Table)
    requires WellFormed(t)
    ensures WellFormed(Table(Newest(t.rows), t.nextId))
  {
    if |t.rows| > MaxUrls {
      SuffixKeepsWellFormed(t, |t.rows| - MaxUrls);
    }
  }

  /** addUrlToHistory keeps what the schema guarantees: unique urls, ids in
      insertion order. */
  lemma {:induction false} AddKeepsWellFormed(t: Table, url: Url)
    requires WellFormed(t)
    ensures WellFormed(Add(t, url))
  {
    var inserted :=
      if url in Urls(t.rows) then t else Table(t.rows + [Entry(t.nextId, url)], t.nextId + 1);
    if url !in Urls(t.rows) {
      AppendKeepsWellFormed(t, url);
    }
    NewestKeepsWellFormed(inserted);
    assert Add(t, url) == Table(Newest(inserted.rows), inserted.nextId);
  }

  /** While the table respects the cap, getLastUrls holds every stored url, so
      `getLastUrls().includes(url)` says whether `INSERT OR IGNORE` would ignore it. */
  lemma {:induction false} SeenIffStored(t: Table, url: Url)
    requires |t.rows| <= MaxUrls
    ensures url in LastUrls(t.rows) <==> url in Urls(t.rows)
  {
    var last, all := LastUrls(t.rows), Urls(t.rows);
    if url in last {
      var i :| 0 <= i < |last| && last[i] == url;
      assert all[|t.rows| - 1 - i] == url;
    }
    if url in all {
      var j :| 0 <= j < |all| && all[j] == url;
      assert last[|t.rows| - 1 - j] == url;
    }
  }

  lemma {:induction false} NewestFirstOfAppend(rows: seq<Entry>, e: Entry)
    ensures NewestFirst(rows + [e]) == [e.url] + NewestFirst(rows)
  {
    assert (rows + [e])[..|rows|] == rows;
  }

  lemma {:induction false} NewestFirstDropFirst(rows: seq<Entry>)
    requires rows != []
    ensures NewestFirst(rows[1..]) == NewestFirst(rows)[..|rows| - 1]
  {
    var rest, all := NewestFirst(rows[1..]), NewestFirst(rows);
    assert |rest| == |all[..|rows| - 1]|;
    forall i | 0 <= i < |rest| ensures rest[i] == all[..|rows| - 1][i] {
      assert rest[i] == rows[1..][|rows| - 2 - i].url == rows[|rows| - 1 - i].url;
      assert all[..|rows| - 1][i] == all[i] == rows[|rows| - 1 - i].url;
    }
  }

  /** A url just added is the newest one getLastUrls returns; the others
      follow in their old order, the oldest one dropped when the table was full. */
  lemma {:induction false} AddedUrlComesFirst(t: Table, url: Url)
    requires |t.rows| <= MaxUrls && url !in Urls(t.rows)
    ensures LastUrls(Add(t, url).rows)
            == [url] + LastUrls(t.rows)[..Min(|t.rows|, MaxUrls - 1)]
  {
    AddCases(t, url);
    var e := Entry(t.nextId, url);
    var n := |t.rows|;
    assert LastUrls(t.rows) == NewestFirst(t.rows);
    if n < MaxUrls {
      NewestFirstOfAppend(t.rows, e);
      assert LastUrls(t.rows)[..n] == LastUrls(t.rows);
    } else {
      NewestFirstOfAppend(t.rows[1..], e);
      NewestFirstDropFirst(t.rows);
    }
  }

  /** Adding the same url twice does what adding it once does: the second
      call finds it stored and changes nothing. */
  lemma {:induction false} AddIsIdempotent(t: Table, url: Url)
    requires |t.rows| <= MaxUrls
    ensures url in LastUrls(Add(t, url).rows)
    ensures Add(Add(t, url), url) == Add(t, url)
  {
    AddCases(t, url);
    var r := Add(t, url);
    if url !in Urls(t.rows) {
      assert Urls(r.rows)[|r.rows| - 1] == url;
      assert LastUrls(r.rows)[0] == url;
    } else {
      SeenIffStored(t, url);
    }
  }

  lemma {:induction false} UrlsOfAppend(rows: seq<Entry>, e: Entry)
    ensures Urls(rows + [e]) == Urls(rows) + [e.url]
  {
    assert (rows + [e])[..|rows|] == rows;
  }

  lemma {:induction false} UrlsOfDropFirst(rows: seq<Entry>)
    requires rows != []
    ensures Urls(rows[1..]) == Urls(rows)[1..]
  {
  }

  /** Adding an absent url to a table within the cap appends it to the `url`
      column, and drops the oldest url when the table was full. */
  lemma {:induction false} AddNewUrlShifts(t: Table, url: Url)
    requires |t.rows| <= MaxUrls && url !in Urls(t.rows)
    ensures Urls(Add(t, url).rows)
            == (if |t.rows| < MaxUrls then Urls(t.rows) else Urls(t.rows)[1..]) + [url]
  {
    AddCases(t, url);
    var e := Entry(t.nextId, url);
    if |t.rows| < MaxUrls {
      UrlsOfAppend(t.rows, e);
    } else {
      UrlsOfAppend(t.rows[1..], e);
      UrlsOfDropFirst(t.rows);
    }
  }

  lemma {:induction false} DistinctFirstAbsentLater(urls: seq<Url>, i: nat)
    requires Distinct(urls) && 0 < i <= |urls|
    ensures urls[0] !in urls[i..]
  {
    if i < |urls| {
      var n := |urls|;
      DistinctFirstAbsentLater(urls[..n - 1], i);
      assert urls[..n - 1][0] == urls[0];
      assert urls[i..] == urls[..n - 1][i..] + [urls[n - 1]];
    }
  }

  /** The last of distinct urls is absent from any window of those before it. */
  lemma {:induction false} LastAbsentBefore(urls: seq<Url>, j: nat)
    requires Distinct(urls) && urls != [] && j <= |urls| - 1
    ensures urls[|urls| - 1] !in urls[..|urls| - 1][j..]
  {
    var prefix := urls[..|urls| - 1];
    forall k | 0 <= k < |prefix| - j ensures prefix[j..][k] != urls[|urls| - 1] {
      assert prefix[j..][k] == prefix[j + k];
    }
  }

  /** The window of the last `Min(n, MaxUrls)` urls moves one step when one
      more url is added: it grows while below the cap, and loses its oldest
      url once at it. */
  lemma {:induction false} WindowSlides(urls: seq<Url>, window: seq<Url>)
    requires |urls| > 0
    requires window == urls[..|urls| - 1][|urls| - 1 - Min(|urls| - 1, MaxUrls)..]
    ensures (if |window| < MaxUrls then window else window[1..]) + [urls[|urls| - 1]]
            == urls[|urls| - Min(|urls|, MaxUrls)..]
  {
    var n := |urls|;
    if n - 1 < MaxUrls {
      assert window == urls[..n - 1];
      assert urls[..n - 1] + [urls[n - 1]] == urls;
    } else {
      assert window[1..] == urls[n - MaxUrls..n - 1];
      assert urls[n - MaxUrls..n - 1] + [urls[n - 1]] == urls[n - MaxUrls..];
    }
  }

  /** First-in, first-out eviction: adding distinct urls one after another to an
      empty table leaves exactly the MaxUrls most recent of them, in order; the
      first one is gone once more than MaxUrls were added. */
  lemma {:induction false} DistinctUrlsKeepNewest(next: nat, urls: seq<Url>)
    requires Distinct(urls)
    ensures Urls(AddAll(Table([], next), urls).rows) == urls[|urls| - Min(|urls|, MaxUrls)..]
    ensures |urls| > MaxUrls ==> urls[0] !in Urls(AddAll(Table([], next), urls).rows)
  {
    if urls != [] {
      var n := |urls|;
      var prefix, last := urls[..n - 1], urls[n - 1];
      DistinctUrlsKeepNewest(next, prefix);
      var t := AddAll(Table([], next), prefix);
      LastAbsentBefore(urls, n - 1 - Min(n - 1, MaxUrls));
      assert AddAll(Table([], next), urls) == Add(t, last);
      AddNewUrlShifts(t, last);
      WindowSlides(urls, Urls(t.rows));
      if n > MaxUrls {
        DistinctFirstAbsentLater(urls, n - MaxUrls);
      }
    }
  }

  /** The shared `urls` table, which addUrlToHistory updates in place. */
  class HistoryStore {
    var rows: seq<Entry>
    var nextId: nat

    ghost predicate Valid()
      reads this
    {
      WellFormed(State())
    }

    function State(): Table
      reads this
    {
      Table(rows, nextId)
    }

    /** `CREATE TABLE IF NOT EXISTS` on a database file that holds `existing`
        (`Table([], 1)` for a new file). */
    constructor Open(existing: Table)
      requires WellFormed(existing)
      ensures Valid() && State() == existing
    {
      rows, nextId := existing.rows, existing.nextId;
    }

    /** getLastUrls, a read-only query. */
    function GetLastUrls(): seq<Url>
      reads this
    {
      LastUrls(rows)
    }

    /** addUrlToHistory: insert, count, then delete the old rows if over the cap. */
    method AddUrlToHistory(url: Url)
      requires Valid()
      modifies this
      ensures Valid()
      ensures State() == Add(old(State()), url)
    {
      ghost var before := State();
      AddKeepsWellFormed(before, url);
      // insert a row for the url unless it is stored
      if url !in Urls(rows) {
        rows := rows + [Entry(nextId, url)];
        nextId := nextId + 1;
      }
      ghost var inserted := State();
      assert Add(before, url) == Table(Newest(inserted.rows), inserted.nextId);
      // count the rows
      var count := |rows|;
      if count > MaxUrls {
        // delete every row but the MaxUrls newest
        rows := rows[count - MaxUrls..];
      }
      assert State() == Add(before, url);
    }
  }
}
