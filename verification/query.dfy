/** The parts of `SELECT … WHERE … ORDER BY …` the listings share: rows
    in the engine's scan order, a filter, and a stable sort on one text
    column. The scan order is the engine's choice and is a parameter. */
module Query {
  import opened Wrappers
  import opened Database
  import Text
  import Sorting

  /** `scan` lists every row id of `t` once. */
  predicate IsScanOf(scan: seq<int>, t: Table) {
    && Sorting.Distinct(scan)
    && (forall i :: 0 <= i < |scan| ==> scan[i] in t.rows)
    && (forall id :: id in t.rows ==> id in scan)
  }

  /** The rows with the given ids, in that order. */
  function Rows(t: Table, ids: seq<int>): (r: seq<(int, Row)>)
    requires forall i :: 0 <= i < |ids| ==> ids[i] in t.rows
    ensures |r| == |ids|
    ensures forall i :: 0 <= i < |r| ==> r[i] == (ids[i], t.rows[ids[i]])
  {
    if |ids| == 0 then [] else [(ids[0], t.rows[ids[0]])] + Rows(t, ids[1..])
  }

  /** The rows of `t` in scan order, as (id, row) pairs. */
  function Scan(t: Table, scan: seq<int>): (r: seq<(int, Row)>)
    requires IsScanOf(scan, t)
    ensures |r| == |scan|
    ensures forall i :: 0 <= i < |r| ==> r[i] == (scan[i], t.rows[scan[i]])
    ensures forall p: (int, Row) :: p in r <==> p.0 in t.rows && p.1 == t.rows[p.0]
  {
    var r := Rows(t, scan);
    forall p: (int, Row) | p.0 in t.rows && p.1 == t.rows[p.0] ensures p in r {
      var i :| 0 <= i < |scan| && scan[i] == p.0;
      assert r[i] == p;
    }
    r
  }

  /** The rows satisfying `keep`, in their order. */
  function Where(rows: seq<(int, Row)>, keep: (int, Row) -> bool): (r: seq<(int, Row)>)
    ensures forall p :: p in r <==> p in rows && keep(p.0, p.1)
    ensures |r| <= |rows|
  {
    if |rows| == 0 then []
    else if keep(rows[0].0, rows[0].1) then [rows[0]] + Where(rows[1..], keep)
    else Where(rows[1..], keep)
  }

  /** The id column of a result. */
  function Keys(rows: seq<(int, Row)>): (ks: seq<int>)
    ensures |ks| == |rows|
    ensures forall i :: 0 <= i < |ks| ==> ks[i] == rows[i].0
  {
    if |rows| == 0 then [] else [rows[0].0] + Keys(rows[1..])
  }

  /** A scan lists every id once. */
  lemma ScanKeysDistinct(t: Table, scan: seq<int>)
    requires IsScanOf(scan, t)
    ensures Sorting.Distinct(Keys(Scan(t, scan)))
  {
  }

  /** Filtering keeps ids distinct. */
  lemma {:induction false} WhereKeysDistinct(rows: seq<(int, Row)>, keep: (int, Row) -> bool)
    requires Sorting.Distinct(Keys(rows))
    ensures Sorting.Distinct(Keys(Where(rows, keep)))
    decreases |rows|
  {
    if |rows| > 0 {
      var rest := rows[1..];
      assert Sorting.Distinct(Keys(rest)) by {
        assert forall i :: 0 <= i < |rest| ==> Keys(rest)[i] == Keys(rows)[i + 1];
      }
      WhereKeysDistinct(rest, keep);
      if keep(rows[0].0, rows[0].1) {
        var w := Where(rest, keep);
        var r := [rows[0]] + w;
        forall j | 0 < j < |r| ensures r[j].0 != rows[0].0 {
          assert r[j] == w[j - 1] && w[j - 1] in rest;
          var k :| 0 <= k < |rest| && rest[k] == w[j - 1];
          assert Keys(rows)[k + 1] == r[j].0;
        }
      }
    }
  }

  /** Reordering keeps ids distinct. */
  lemma PermutationKeysDistinct(rows: seq<(int, Row)>, r: seq<(int, Row)>)
    requires multiset(r) == multiset(rows)
    requires Sorting.Distinct(Keys(rows))
    ensures Sorting.Distinct(Keys(r))
  {
    assert Sorting.Distinct(rows) by {
      forall i, j | 0 <= i < j < |rows| ensures rows[i] != rows[j] {
        assert Keys(rows)[i] != Keys(rows)[j];
      }
    }
    Sorting.DistinctPermutation(rows, r);
    forall i, j | 0 <= i < j < |r| ensures r[i].0 != r[j].0 {
      assert r[i] in multiset(rows) && r[j] in multiset(rows);
      var a :| 0 <= a < |rows| && rows[a] == r[i];
      var b :| 0 <= b < |rows| && rows[b] == r[j];
      assert r[i] != r[j];
      assert a != b;
      assert Keys(rows)[a] != Keys(rows)[b];
    }
  }

  /** A filter that keeps every row keeps the sequence as it is. */
  lemma {:induction false} WhereAll(rows: seq<(int, Row)>, keep: (int, Row) -> bool)
    requires forall i :: 0 <= i < |rows| ==> keep(rows[i].0, rows[i].1)
    ensures Where(rows, keep) == rows
    decreases |rows|
  {
    if |rows| > 0 {
      assert forall i :: 0 <= i < |rows| - 1 ==> rows[1..][i] == rows[i + 1];
      WhereAll(rows[1..], keep);
    }
  }

  /** SQLite's ascending order on a text column: NULL (here: any non-text
      value) first, then text by code point. */
  predicate TextLe(a: Option<string>, b: Option<string>) {
    a.None? || (b.Some? && Text.StrLe(a.value, b.value))
  }

  /** `ORDER BY col` (ascending) or `ORDER BY col DESC` as a comparison. */
  predicate RowLe(col: string, desc: bool, a: (int, Row), b: (int, Row)) {
    if desc then TextLe(TextOf(b.1, col), TextOf(a.1, col))
    else TextLe(TextOf(a.1, col), TextOf(b.1, col))
  }

  lemma RowLeIsTotalPreorder(col: string, desc: bool)
    ensures Sorting.TotalPreorder((a, b) => RowLe(col, desc, a, b))
  {
    forall a: (int, Row), b: (int, Row) ensures RowLe(col, desc, a, b) || RowLe(col, desc, b, a) {
      var x, y := TextOf(a.1, col), TextOf(b.1, col);
      if x.Some? && y.Some? { Text.StrLeTotal(x.value, y.value); }
    }
    forall a: (int, Row), b: (int, Row), c: (int, Row) | RowLe(col, desc, a, b) && RowLe(col, desc, b, c)
      ensures RowLe(col, desc, a, c)
    {
      var x, y, z := TextOf(a.1, col), TextOf(b.1, col), TextOf(c.1, col);
      if x.Some? && y.Some? && z.Some? {
        if desc { Text.StrLeTransitive(z.value, y.value, x.value); }
        else { Text.StrLeTransitive(x.value, y.value, z.value); }
      }
    }
  }

  /** The rows sorted on `col`, ties kept in scan order. */
  function OrderBy(rows: seq<(int, Row)>, col: string, desc: bool): (r: seq<(int, Row)>)
    ensures forall i, j :: 0 <= i < j < |r| ==> RowLe(col, desc, r[i], r[j])
    ensures multiset(r) == multiset(rows)
    ensures |r| == |rows|
    ensures forall p :: p in r <==> p in rows
  {
    RowLeIsTotalPreorder(col, desc);
    Sorting.SortByElements(rows, (a, b) => RowLe(col, desc, a, b));
    Sorting.SortBy(rows, (a, b) => RowLe(col, desc, a, b))
  }

  /** Sorting keeps ids distinct. */
  lemma OrderByKeysDistinct(rows: seq<(int, Row)>, col: string, desc: bool)
    requires Sorting.Distinct(Keys(rows))
    ensures Sorting.Distinct(Keys(OrderBy(rows, col, desc)))
  {
    PermutationKeysDistinct(rows, OrderBy(rows, col, desc));
  }

  /** A scan, filtered and sorted, lists each id at most once. */
  lemma ListingKeysDistinct(t: Table, scan: seq<int>, keep: (int, Row) -> bool, col: string, desc: bool)
    requires IsScanOf(scan, t)
    ensures Sorting.Distinct(Keys(OrderBy(Where(Scan(t, scan), keep), col, desc)))
  {
    ScanKeysDistinct(t, scan);
    WhereKeysDistinct(Scan(t, scan), keep);
    OrderByKeysDistinct(Where(Scan(t, scan), keep), col, desc);
  }
}
