/** Issue filters: the filter record (`app/domain/filters.py`), its
    construction and the remembered last filter
    (`app/services/filter_service.py`), and the WHERE clause that
    `list_issues` builds from it (`app/database/repositories/issues.py`). */
module Filters {
  import opened Wrappers
  import opened Database
  import Text
  import Query
  import Sorting
  import Labels

  datatype IssueFilter = IssueFilter(
    status: string,
    keyword: string,
    assignee: Option<string>,
    milestone: Option<int>,
    tags: seq<string>)

  /** `IssueFilter()`: every field at its default. */
  const DefaultFilter := IssueFilter("ALL", "", None, None, [])

  /** Python truthiness of an optional string: None and "" are false. */
  predicate Truthy(s: Option<string>) {
    s.Some? && s.value != ""
  }

  /** `build_filter`: `x or default` for status, keyword, assignee and
      tags; the milestone is passed as given. */
  function BuildFilter(keyword: Option<string>, status: Option<string>, assignee: Option<string>,
                       tags: Option<seq<string>>, milestone: Option<int>): (f: IssueFilter)
    ensures f.status == (if Truthy(status) then status.value else "ALL")
    ensures f.status != ""
    ensures f.keyword == (if Truthy(keyword) then keyword.value else "")
    ensures f.assignee.Some? <==> Truthy(assignee)
    ensures f.assignee.Some? ==> f.assignee == assignee
    ensures f.tags == (if tags.Some? then tags.value else [])
    ensures f.milestone == milestone
  {
    IssueFilter(
      if Truthy(status) then status.value else "ALL",
      if Truthy(keyword) then keyword.value else "",
      if Truthy(assignee) then assignee else None,
      milestone,
      if tags.Some? then tags.value else [])
  }

  /** `build_filter()` with no arguments is the default filter. */
  lemma BuildWithNothingIsDefault()
    ensures BuildFilter(None, None, None, None, None) == DefaultFilter
  {
  }

  /** `save_last`: the module-level slot now holds `f`. */
  function SaveLast(slot: Option<IssueFilter>, f: IssueFilter): (r: Option<IssueFilter>)
    ensures r == Some(f)
  {
    Some(f)
  }

  /** `load_last`: the saved filter, else the default given, else
      `IssueFilter()`. A filter object is always truthy. */
  function LoadLast(slot: Option<IssueFilter>, default: Option<IssueFilter>): (f: IssueFilter)
    ensures slot.Some? ==> f == slot.value
    ensures slot.None? && default.Some? ==> f == default.value
    ensures slot.None? && default.None? ==> f == DefaultFilter
  {
    match slot
    case Some(s) => s
    case None => default.GetOr(DefaultFilter)
  }

  /** What was saved last is what is loaded, whatever the default. */
  lemma SaveThenLoad(slot: Option<IssueFilter>, f: IssueFilter, default: Option<IssueFilter>)
    ensures LoadLast(SaveLast(slot, f), default) == f
  {
  }

  // -------------------------------------------------------------------
  // SQLite LIKE
  // -------------------------------------------------------------------

  /** ASCII upper case to lower case; SQLite's LIKE folds only these. */
  function Fold(c: char): (d: char)
    ensures 'A' <= c <= 'Z' ==> d as int == c as int + 32
    ensures !('A' <= c <= 'Z') ==> d == c
  {
    if 'A' <= c <= 'Z' then (c as int + 32) as char else c
  }

  /** `s LIKE pat` without an ESCAPE clause: '%' matches any run, '_' any
      one character, and other characters match up to ASCII case. */
  predicate Like(s: string, pat: string)
    decreases |pat|, |s|
  {
    if |pat| == 0 then |s| == 0
    else if pat[0] == '%' then Like(s, pat[1..]) || (|s| > 0 && Like(s[1..], pat))
    else if pat[0] == '_' then |s| > 0 && Like(s[1..], pat[1..])
    else |s| > 0 && Fold(s[0]) == Fold(pat[0]) && Like(s[1..], pat[1..])
  }

  /** A string free of LIKE's wildcards. */
  predicate Literal(p: string) {
    forall k :: 0 <= k < |p| ==> p[k] != '%' && p[k] != '_'
  }

  function Lower(s: string): (r: string)
    ensures |r| == |s|
    ensures forall k :: 0 <= k < |s| ==> r[k] == Fold(s[k])
  {
    Text.MapChars(s, Fold)
  }

  lemma {:induction false} LikeAnyTail(s: string)
    ensures Like(s, "%")
    decreases |s|
  {
    if |s| > 0 { LikeAnyTail(s[1..]); }
  }

  /** `s LIKE 'p%'` for a literal `p` is a case-blind prefix test. */
  lemma {:induction false} LikePrefix(s: string, p: string)
    requires Literal(p)
    ensures Like(s, p + "%") <==> Text.IsPrefix(Lower(p), Lower(s))
    decreases |p|
  {
    if |p| == 0 {
      assert p + "%" == "%";
      LikeAnyTail(s);
    } else {
      assert (p + "%")[1..] == p[1..] + "%";
      if |s| > 0 {
        LikePrefix(s[1..], p[1..]);
        assert Lower(s)[1..] == Lower(s[1..]);
        assert Lower(p)[1..] == Lower(p[1..]);
        if Text.IsPrefix(Lower(p), Lower(s)) {
          assert Lower(s)[..|p|][0] == Lower(p)[0];
          assert Lower(s[1..])[..|p| - 1] == Lower(s)[1..|p|];
        }
        if Fold(s[0]) == Fold(p[0]) && Text.IsPrefix(Lower(p[1..]), Lower(s[1..])) {
          assert Lower(s)[..|p|] == [Fold(s[0])] + Lower(s[1..])[..|p| - 1];
          assert Lower(p) == [Fold(p[0])] + Lower(p[1..]);
        }
      }
    }
  }

  /** `s LIKE '%p%'` for a literal `p` is a case-blind substring test. */
  lemma {:induction false} LikeIsContains(s: string, p: string)
    requires Literal(p)
    ensures Like(s, "%" + p + "%") <==> Text.Contains(Lower(s), Lower(p))
    decreases |s|
  {
    assert ("%" + p + "%")[1..] == p + "%";
    LikePrefix(s, p);
    if |s| > 0 {
      LikeIsContains(s[1..], p);
      assert Lower(s)[1..] == Lower(s[1..]);
    }
  }

  /** `'%' || x || '%'`, the parameter every substring clause binds. */
  function Around(x: string): (pat: string)
    ensures |pat| == |x| + 2 && pat[0] == '%' && pat[|pat| - 1] == '%'
    ensures pat[1..|pat| - 1] == x
  {
    "%" + x + "%"
  }

  // -------------------------------------------------------------------
  // the WHERE clause of list_issues
  // -------------------------------------------------------------------

  /** `re.split(r"[\s　]+", ...)`: Python whitespace already
      includes U+3000. */
  predicate IsKeywordSeparator(c: char) {
    Text.IsPySpace(c) || c == '　'
  }

  /** The words of the keyword, empty ones dropped. */
  function KeywordWords(keyword: string): (ws: seq<string>)
    ensures forall w :: w in ws ==> w != "" && forall c :: c in w ==> !IsKeywordSeparator(c)
  {
    Text.Words(keyword, IsKeywordSeparator)
  }

  /** A column `LIKE pattern`; NULL and non-text values never match. */
  predicate ColumnLike(row: Row, col: string, pat: string) {
    var v := TextOf(row, col);
    v.Some? && Like(v.value, pat)
  }

  /** `(title LIKE %w% OR body LIKE %w%)` for every word. */
  predicate KeywordsMatch(row: Row, keyword: string) {
    forall w :: w in KeywordWords(keyword) ==>
      ColumnLike(row, "title", Around(w)) || ColumnLike(row, "body", Around(w))
  }

  /** `status = ?` unless the status is "ALL" or empty. */
  predicate StatusMatches(row: Row, status: string) {
    status == "" || status == "ALL" || (("status" in row) && row["status"] == Text(status))
  }

  /** `assignee LIKE %a%` when an assignee is given and non-empty. */
  predicate AssigneeMatches(row: Row, assignee: Option<string>) {
    !Truthy(assignee) || ColumnLike(row, "assignee", Around(assignee.value))
  }

  /** `milestone_id = ?` when a milestone is given; NULL never equals. */
  predicate MilestoneMatches(row: Row, milestone: Option<int>) {
    milestone.None? || ("milestone_id" in row && row["milestone_id"] == Int(milestone.value))
  }

  /** `id IN (issues with some label LIKE %tag% for some tag)` when tags
      are given. */
  predicate TagsMatch(db: Db, id: int, tags: seq<string>) {
    tags == [] || exists n, t :: n in Labels.NamesOf(db, id) && t in tags && Like(n, Around(t))
  }

  /** The whole WHERE clause, its parts joined with AND. */
  predicate IssueMatches(db: Db, id: int, row: Row, f: IssueFilter) {
    && KeywordsMatch(row, f.keyword)
    && StatusMatches(row, f.status)
    && AssigneeMatches(row, f.assignee)
    && MilestoneMatches(row, f.milestone)
    && TagsMatch(db, id, f.tags)
  }

  /** `list_issues`: the matching issues, newest `created_at` first. */
  function ListIssues(db: Db, f: IssueFilter, scan: seq<int>): (r: seq<(int, Row)>)
    requires "issues" in db.tables && Query.IsScanOf(scan, db.tables["issues"])
    ensures forall i, j :: 0 <= i < j < |r| ==> Query.RowLe("created_at", true, r[i], r[j])
    ensures forall p: (int, Row) :: p in r <==> (p.0 in db.tables["issues"].rows
                                                && p.1 == db.tables["issues"].rows[p.0]
                                                && IssueMatches(db, p.0, p.1, f))
    ensures Sorting.Distinct(Query.Keys(r))
  {
    var keep := (id, row) => IssueMatches(db, id, row, f);
    Query.ListingKeysDistinct(db.tables["issues"], scan, keep, "created_at", true);
    Query.OrderBy(Query.Where(Query.Scan(db.tables["issues"], scan), keep), "created_at", true)
  }

  /** The default filter lets every issue through. */
  lemma DefaultMatchesAll(db: Db, id: int, row: Row)
    ensures IssueMatches(db, id, row, DefaultFilter)
  {
    assert Text.SplitWhere("", IsKeywordSeparator) == [""];
  }

  /** A one-word keyword free of wildcards matches exactly the issues whose
      title or body contains it, ignoring ASCII case. */
  lemma OneWordIsSubstringSearch(row: Row, w: string)
    requires w != "" && Literal(w)
    requires forall c :: c in w ==> !IsKeywordSeparator(c)
    ensures KeywordsMatch(row, w) <==>
              (TextOf(row, "title").Some? && Text.Contains(Lower(TextOf(row, "title").value), Lower(w)))
              || (TextOf(row, "body").Some? && Text.Contains(Lower(TextOf(row, "body").value), Lower(w)))
  {
    assert forall i :: 0 <= i < |w| ==> w[i] in w;
    Text.SplitWhereNone(w, IsKeywordSeparator);
    assert Text.NonEmpty([w]) == [w] + Text.NonEmpty([]);
    assert KeywordWords(w) == [w];
    assert KeywordsMatch(row, w) <==> ColumnLike(row, "title", Around(w)) || ColumnLike(row, "body", Around(w)) by {
      assert forall x :: x in KeywordWords(w) <==> x == w;
    }
    if TextOf(row, "title").Some? { LikeIsContains(TextOf(row, "title").value, w); }
    if TextOf(row, "body").Some? { LikeIsContains(TextOf(row, "body").value, w); }
  }
}
