/**
 * The article table: one record per URL, the URL being the primary key.
 * `get_existing_urls`, `upsert_rows` and the query behind `print_newest`.
 * Opening the database file, committing and closing are left to the host.
 */
module Store {

  /** A row of `bbc_articles`. */
  datatype Record = Record(url: string, runTs: string, title: string, publishedRaw: string, publishedIso: string, firstParagraph: string)

  /** The table's columns, by name. */
  const Columns: set<string> := {"url", "run_ts_utc", "title", "published_raw", "published_iso", "first_paragraph"}

  /** The value of the column `name` in `r`. */
  function Column(r: Record, name: string): string {
    if name == "url" then r.url
    else if name == "run_ts_utc" then r.runTs
    else if name == "title" then r.title
    else if name == "published_raw" then r.publishedRaw
    else if name == "published_iso" then r.publishedIso
    else if name == "first_paragraph" then r.firstParagraph
    else ""
  }

  /** `row.get(name, "")` on a row given as a dictionary. */
  function Get(row: map<string, string>, name: string): string {
    if name in row then row[name] else ""
  }

  /** The record a dictionary is stored as: each column from the key of its name, a missing key as empty text. */
  function ToRecord(row: map<string, string>): (r: Record)
    ensures forall name :: name in Columns ==> Column(r, name) == (if name in row then row[name] else "")
  {
    Record(Get(row, "url"), Get(row, "run_ts_utc"), Get(row, "title"), Get(row, "published_raw"),
      Get(row, "published_iso"), Get(row, "first_paragraph"))
  }

  /** A table whose every record sits under its own URL. */
  predicate Keyed(table: map<string, Record>) {
    forall k :: k in table ==> table[k].url == k
  }

  /** The table after `INSERT OR REPLACE` of each row in turn. */
  function UpsertAll(table: map<string, Record>, rows: seq<map<string, string>>): map<string, Record> {
    if rows == [] then table
    else
      var row := rows[|rows| - 1];
      UpsertAll(table, rows[..|rows| - 1])[Get(row, "url") := ToRecord(row)]
  }

  class ArticleStore {
    var table: map<string, Record>

    ghost predicate Valid()
      reads this
    {
      Keyed(table)
    }

    /** `init_db` on a new database file: an empty table. */
    constructor()
      ensures Valid() && table == map[]
    {
      table := map[];
    }

    /** `get_existing_urls`: the URLs the table holds. */
    method GetExistingUrls() returns (urls: set<string>)
      ensures forall u :: u in urls <==> u in table
    {
      urls := table.Keys;
    }

    /**
     * `upsert_rows`: nothing happens for no rows; otherwise each row in turn
     * replaces the record under its URL, and the number of rows is returned.
     */
    method UpsertRows(rows: seq<map<string, string>>) returns (n: nat)
      requires Valid()
      modifies this
      ensures Valid() && n == |rows|
      ensures table == UpsertAll(old(table), rows)
    {
      if rows == [] {
        return 0;
      }
      n := 0;
      for i := 0 to |rows|
        invariant n == i
        invariant table == UpsertAll(old(table), rows[..i])
      {
        assert rows[..i + 1][..i] == rows[..i];
        var row := rows[i];
        table := table[Get(row, "url") := ToRecord(row)];
        n := n + 1;
      }
      assert rows[..|rows|] == rows;
      UpsertKeyed(old(table), rows);
    }
  }

  // ---------------------------------------------------------------------
  // Properties of the upsert
  // ---------------------------------------------------------------------

  /** Upserting keeps every record under its own URL. */
  lemma {:induction false} UpsertKeyed(table: map<string, Record>, rows: seq<map<string, string>>)
    requires Keyed(table)
    ensures Keyed(UpsertAll(table, rows))
  {
    if rows != [] {
      UpsertKeyed(table, rows[..|rows| - 1]);
    }
  }

  /** After the upsert the table holds its old URLs and those of the rows, and no others. */
  lemma {:induction false} UpsertKeys(table: map<string, Record>, rows: seq<map<string, string>>)
    ensures forall u :: u in UpsertAll(table, rows) <==> u in table || exists i :: 0 <= i < |rows| && Get(rows[i], "url") == u
  {
    if rows != [] {
      var prefix := rows[..|rows| - 1];
      UpsertKeys(table, prefix);
      forall u
        ensures u in UpsertAll(table, rows) <==> u in table || exists i :: 0 <= i < |rows| && Get(rows[i], "url") == u
      {
        if i :| 0 <= i < |rows| && Get(rows[i], "url") == u {
          if i < |prefix| {
            assert Get(prefix[i], "url") == u;
          }
        }
        if i :| 0 <= i < |prefix| && Get(prefix[i], "url") == u {
          assert Get(rows[i], "url") == u;
        }
      }
    }
  }

  /** Of several rows with one URL, the last one is what the table keeps. */
  lemma {:induction false} LastWriteWins(table: map<string, Record>, rows: seq<map<string, string>>, i: nat)
    requires i < |rows|
    requires forall j :: i < j < |rows| ==> Get(rows[j], "url") != Get(rows[i], "url")
    ensures Get(rows[i], "url") in UpsertAll(table, rows)
    ensures UpsertAll(table, rows)[Get(rows[i], "url")] == ToRecord(rows[i])
  {
    if i < |rows| - 1 {
      var prefix := rows[..|rows| - 1];
      assert prefix[i] == rows[i];
      LastWriteWins(table, prefix, i);
    }
  }

  /** A URL no row carries keeps its record, or its absence. */
  lemma {:induction false} OtherKeysUnchanged(table: map<string, Record>, rows: seq<map<string, string>>, u: string)
    requires forall j :: 0 <= j < |rows| ==> Get(rows[j], "url") != u
    ensures u in UpsertAll(table, rows) <==> u in table
    ensures u in table ==> UpsertAll(table, rows)[u] == table[u]
  {
    if rows != [] {
      var prefix := rows[..|rows| - 1];
      assert forall j :: 0 <= j < |prefix| ==> prefix[j] == rows[j];
      OtherKeysUnchanged(table, prefix, u);
    }
  }

  // ---------------------------------------------------------------------
  // The newest query
  // ---------------------------------------------------------------------

  /** SQLite's default text order: code point by code point, a prefix first. */
  predicate TextLe(a: string, b: string) {
    a == [] || (b != [] && (a[0] < b[0] || (a[0] == b[0] && TextLe(a[1..], b[1..]))))
  }

  lemma {:induction false} TextLeTotal(a: string, b: string)
    ensures TextLe(a, b) || TextLe(b, a)
  {
    if a != [] && b != [] && a[0] == b[0] {
      TextLeTotal(a[1..], b[1..]);
    }
  }

  lemma {:induction false} TextLeTransitive(a: string, b: string, c: string)
    requires TextLe(a, b) && TextLe(b, c)
    ensures TextLe(a, c)
  {
    if a != [] && b != [] && c != [] && a[0] == b[0] && b[0] == c[0] {
      TextLeTransitive(a[1..], b[1..], c[1..]);
    }
  }

  lemma {:induction false} TextLeAntisymmetric(a: string, b: string)
    requires TextLe(a, b) && TextLe(b, a)
    ensures a == b
  {
    if a != [] && b != [] {
      TextLeAntisymmetric(a[1..], b[1..]);
      assert a == [a[0]] + a[1..] && b == [b[0]] + b[1..];
    }
  }

  /** The URLs the query considers: those with a non-empty `published_iso`. */
  function Dated(table: map<string, Record>): set<string> {
    set u | u in table && table[u].publishedIso != ""
  }

  /** A URL of a non-empty set whose `published_iso` is the greatest. */
  lemma {:induction false} Latest(table: map<string, Record>, urls: set<string>) returns (u: string)
    requires urls != {} && urls <= table.Keys
    ensures u in urls && forall v :: v in urls ==> TextLe(table[v].publishedIso, table[u].publishedIso)
    decreases |urls|
  {
    var w :| w in urls;
    var rest := urls - {w};
    TextLeTotal(table[w].publishedIso, table[w].publishedIso);
    if rest == {} {
      u := w;
      forall v | v in urls
        ensures v == w
      {
        assert v !in rest;
      }
    } else {
      var m := Latest(table, rest);
      TextLeTotal(table[w].publishedIso, table[m].publishedIso);
      if TextLe(table[w].publishedIso, table[m].publishedIso) {
        u := m;
      } else {
        u := w;
        forall v | v in rest
          ensures TextLe(table[v].publishedIso, table[w].publishedIso)
        {
          TextLeTransitive(table[v].publishedIso, table[m].publishedIso, table[w].publishedIso);
        }
      }
    }
  }

  lemma LatestExists(table: map<string, Record>, urls: set<string>)
    requires urls != {} && urls <= table.Keys
    ensures exists u :: u in urls && forall v :: v in urls ==> TextLe(table[v].publishedIso, table[u].publishedIso)
  {
    var u := Latest(table, urls);
  }

  /**
   * The URLs of the rows `print_newest` lists: the dated records in
   * descending `published_iso` order, at most `n` of them. Records with the
   * same `published_iso` come in an order the query leaves open.
   */
  ghost function Newest(table: map<string, Record>, n: nat): seq<string> {
    NewestOf(table, Dated(table), n)
  }

  /** The first `n` URLs of `pool` in descending `published_iso` order. */
  ghost function NewestOf(table: map<string, Record>, pool: set<string>, n: nat): seq<string>
    requires pool <= table.Keys
    decreases n
  {
    if n == 0 || pool == {} then []
    else
      LatestExists(table, pool);
      var u :| u in pool && forall v :: v in pool ==> TextLe(table[v].publishedIso, table[u].publishedIso);
      [u] + NewestOf(table, pool - {u}, n - 1)
  }

  /** The first URL the query picks from `pool`: one with the greatest `published_iso`. */
  lemma NewestStep(table: map<string, Record>, pool: set<string>, n: nat) returns (u: string)
    requires pool <= table.Keys && n != 0 && pool != {}
    ensures NewestOf(table, pool, n) == [u] + NewestOf(table, pool - {u}, n - 1)
    ensures u in pool && forall v :: v in pool ==> TextLe(table[v].publishedIso, table[u].publishedIso)
  {
    u := NewestOf(table, pool, n)[0];
  }

  /** Picking from `pool` answers `n` URLs, or all of `pool` when it is smaller. */
  lemma {:induction false} NewestOfLength(table: map<string, Record>, pool: set<string>, n: nat)
    requires pool <= table.Keys
    ensures |NewestOf(table, pool, n)| == if n < |pool| then n else |pool|
    decreases n
  {
    if n != 0 && pool != {} {
      var u := NewestStep(table, pool, n);
      NewestOfLength(table, pool - {u}, n - 1);
    }
  }

  /** Picking from `pool` answers distinct URLs of `pool`. */
  lemma {:induction false} NewestOfDistinct(table: map<string, Record>, pool: set<string>, n: nat)
    requires pool <= table.Keys
    ensures forall i :: 0 <= i < |NewestOf(table, pool, n)| ==> NewestOf(table, pool, n)[i] in pool
    ensures forall i, j :: 0 <= i < j < |NewestOf(table, pool, n)| ==> NewestOf(table, pool, n)[i] != NewestOf(table, pool, n)[j]
    decreases n
  {
    if n != 0 && pool != {} {
      var u := NewestStep(table, pool, n);
      NewestOfDistinct(table, pool - {u}, n - 1);
    }
  }

  /** `r` lists URLs of `table` in descending `published_iso` order. */
  predicate Descending(table: map<string, Record>, r: seq<string>) {
    forall i, j :: 0 <= i < j < |r| ==>
      r[i] in table && r[j] in table && TextLe(table[r[j]].publishedIso, table[r[i]].publishedIso)
  }

  /** Every URL of `pool` that `r` leaves out is no more recent than any URL `r` lists. */
  predicate Outranks(table: map<string, Record>, pool: set<string>, r: seq<string>) {
    forall v, i :: v in pool && v in table && v !in r && 0 <= i < |r| ==>
      r[i] in table && TextLe(table[v].publishedIso, table[r[i]].publishedIso)
  }

  /** Picking from `pool` lists URLs in descending `published_iso` order. */
  lemma {:induction false} NewestOfDescending(table: map<string, Record>, pool: set<string>, n: nat)
    requires pool <= table.Keys
    ensures Descending(table, NewestOf(table, pool, n))
    decreases n
  {
    if n != 0 && pool != {} {
      var u := NewestStep(table, pool, n);
      NewestOfDescending(table, pool - {u}, n - 1);
      NewestOfDistinct(table, pool - {u}, n - 1);
      DescendingCons(table, pool, u, NewestOf(table, pool - {u}, n - 1));
    }
  }

  /** The most recent URL of `pool`, put before a descending list drawn from the rest of `pool`. */
  lemma DescendingCons(table: map<string, Record>, pool: set<string>, u: string, tail: seq<string>)
    requires pool <= table.Keys
    requires u in pool && forall v :: v in pool ==> TextLe(table[v].publishedIso, table[u].publishedIso)
    requires Descending(table, tail) && forall k :: 0 <= k < |tail| ==> tail[k] in pool - {u}
    ensures Descending(table, [u] + tail)
  {
    var r := [u] + tail;
    forall i, j | 0 <= i < j < |r|
      ensures r[i] in table && r[j] in table && TextLe(table[r[j]].publishedIso, table[r[i]].publishedIso)
    {
      assert r[j] == tail[j - 1];
      if i > 0 {
        assert r[i] == tail[i - 1];
      }
    }
  }

  /** Every URL of `pool` that picking leaves out is no more recent than any it lists. */
  lemma {:induction false} NewestOfOutranks(table: map<string, Record>, pool: set<string>, n: nat)
    requires pool <= table.Keys
    ensures Outranks(table, pool, NewestOf(table, pool, n))
    decreases n
  {
    if n != 0 && pool != {} {
      var u := NewestStep(table, pool, n);
      NewestOfOutranks(table, pool - {u}, n - 1);
      NewestOfDistinct(table, pool - {u}, n - 1);
      OutranksCons(table, pool, u, NewestOf(table, pool - {u}, n - 1));
    }
  }

  /** Putting the most recent URL of `pool` first keeps every URL left out outranked. */
  lemma OutranksCons(table: map<string, Record>, pool: set<string>, u: string, tail: seq<string>)
    requires pool <= table.Keys
    requires u in pool && forall v :: v in pool ==> TextLe(table[v].publishedIso, table[u].publishedIso)
    requires Outranks(table, pool - {u}, tail) && forall k :: 0 <= k < |tail| ==> tail[k] in pool - {u}
    ensures Outranks(table, pool, [u] + tail)
  {
    var r := [u] + tail;
    forall v, i | v in pool && v in table && v !in r && 0 <= i < |r|
      ensures r[i] in table && TextLe(table[v].publishedIso, table[r[i]].publishedIso)
    {
      if i > 0 {
        assert r[i] == tail[i - 1];
        assert v in pool - {u} && v !in tail;
      }
    }
  }

  /** The newest query answers `n` URLs, or every dated one when fewer are dated. */
  lemma NewestLength(table: map<string, Record>, n: nat)
    ensures |Newest(table, n)| == if n < |Dated(table)| then n else |Dated(table)|
  {
    NewestOfLength(table, Dated(table), n);
  }

  /** The newest query answers distinct dated URLs of the table. */
  lemma NewestDistinctDated(table: map<string, Record>, n: nat)
    ensures forall i :: 0 <= i < |Newest(table, n)| ==> Newest(table, n)[i] in Dated(table)
    ensures forall i, j :: 0 <= i < j < |Newest(table, n)| ==> Newest(table, n)[i] != Newest(table, n)[j]
  {
    NewestOfDistinct(table, Dated(table), n);
  }

  /** The newest query lists its URLs in descending `published_iso` order. */
  lemma NewestDescending(table: map<string, Record>, n: nat)
    ensures Descending(table, Newest(table, n))
  {
    NewestOfDescending(table, Dated(table), n);
  }

  /** Every dated URL the newest query leaves out is no more recent than any it lists. */
  lemma NewestOutranks(table: map<string, Record>, n: nat)
    ensures Outranks(table, Dated(table), Newest(table, n))
  {
    NewestOfOutranks(table, Dated(table), n);
  }
}
