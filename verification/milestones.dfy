/** Milestones: the Python service (`app/services/milestone_service.py`
    over `app/database/repositories/milestones.py`) and the Rust commands
    (`src-tauri/src/commands/milestones.rs`). */
module Milestones {
  import opened Wrappers
  import opened Database
  import Query

  /** A column's value; a missing column reads as NULL. */
  function ValueOf(row: Row, col: string): (v: SqlValue)
    ensures col in row ==> v == row[col]
    ensures col !in row ==> v == Null
  {
    if col in row then row[col] else Null
  }

  // -------------------------------------------------------------------
  // progress
  // -------------------------------------------------------------------

  /** The issues assigned to a milestone, and those of them CLOSED
      (`count_issue_progress`, and the LEFT JOIN of the Rust query). */
  function Assigned(issues: Table, m: int): (ids: set<int>)
    ensures forall id :: id in ids <==> id in issues.rows && ValueOf(issues.rows[id], "milestone_id") == Int(m)
  {
    set id | id in issues.rows && ValueOf(issues.rows[id], "milestone_id") == Int(m)
  }

  function ClosedOf(issues: Table, m: int): (ids: set<int>)
    ensures ids <= Assigned(issues, m)
    ensures forall id :: id in ids <==> id in Assigned(issues, m) && ValueOf(issues.rows[id], "status") == Text("CLOSED")
  {
    set id | id in Assigned(issues, m) && ValueOf(issues.rows[id], "status") == Text("CLOSED")
  }

  /** (total, closed) for a milestone: closed never exceeds total. */
  function CountIssueProgress(issues: Table, m: int): (r: (nat, nat))
    ensures r.1 <= r.0
    ensures r.0 == |Assigned(issues, m)| && r.1 == |ClosedOf(issues, m)|
  {
    SubsetSize(ClosedOf(issues, m), Assigned(issues, m));
    (|Assigned(issues, m)|, |ClosedOf(issues, m)|)
  }

  lemma {:induction false} SubsetSize(a: set<int>, b: set<int>)
    requires a <= b
    ensures |a| <= |b|
    decreases |b|
  {
    if b != {} {
      if forall y :: y !in b { assert false; }
      var y :| y in b;
      SubsetSize(a - {y}, b - {y});
    }
  }

  /** The percentage done, rounded down; 0 for no issues. This is the
      Rust formula, and the Python one up to floating point. */
  function Percent(total: nat, closed: nat): (pct: nat)
    ensures total == 0 ==> pct == 0
    ensures total > 0 ==> pct * total <= closed * 100 < (pct + 1) * total
  {
    if total > 0 then (closed * 100) / total else 0
  }

  /** `progress`: (0, 0, 0) without issues, else (total, closed, percent). */
  function Progress(total: nat, closed: nat): (r: (nat, nat, nat))
    ensures total == 0 ==> r == (0, 0, 0)
    ensures total > 0 ==> r.0 == total && r.1 == closed && r.2 == Percent(total, closed)
  {
    if total == 0 then (0, 0, 0) else (total, closed, Percent(total, closed))
  }

  /** Since closed issues are among the assigned ones, progress never
      passes 100, and reaches it exactly when all are closed. */
  lemma PercentAtMost100(total: nat, closed: nat)
    requires closed <= total
    ensures Percent(total, closed) <= 100
    ensures total > 0 ==> (Percent(total, closed) == 100 <==> closed == total)
  {
    if total > 0 {
      var pct := Percent(total, closed);
      MulLt(pct, 101, total);
      if closed < total {
        MulLt(pct, 100, total);
      } else {
        MulLt(100, pct + 1, total);
      }
    }
  }

  /** Multiplying by a positive number keeps a strict order. */
  lemma MulLt(a: int, b: int, c: nat)
    requires c > 0 && a * c < b * c
    ensures a < b
  {
  }

  /** `auto_status`. */
  function AutoStatus(total: nat, closed: nat): (s: string)
    ensures total == 0 ==> s == "planned"
    ensures total > 0 ==> (s == "closed" <==> Progress(total, closed).2 >= 100)
    ensures s in {"planned", "closed", "active"}
  {
    var (t, _, pct) := Progress(total, closed);
    if t == 0 then "planned" else if pct >= 100 then "closed" else "active"
  }

  /** A milestone is closed exactly when it has issues and all are closed,
      planned exactly when it has none, and active otherwise. */
  lemma AutoStatusMeaning(issues: Table, m: int)
    ensures var (total, closed) := CountIssueProgress(issues, m);
            && (AutoStatus(total, closed) == "planned" <==> Assigned(issues, m) == {})
            && (AutoStatus(total, closed) == "closed" <==> Assigned(issues, m) != {} && ClosedOf(issues, m) == Assigned(issues, m))
  {
    var (total, closed) := CountIssueProgress(issues, m);
    PercentAtMost100(total, closed);
    if total > 0 && closed == total {
      SameSizeSubset(ClosedOf(issues, m), Assigned(issues, m));
    }
  }

  lemma {:induction false} SameSizeSubset(a: set<int>, b: set<int>)
    requires a <= b && |a| == |b|
    ensures a == b
    decreases |b|
  {
    if b != {} {
      if forall y :: y !in b { assert false; }
      var y :| y in b;
      if y !in a {
        SubsetSize(a, b - {y});
        assert false;
      }
      SameSizeSubset(a - {y}, b - {y});
      assert a == (a - {y}) + {y} && b == (b - {y}) + {y};
    }
  }

  // -------------------------------------------------------------------
  // Python service
  // -------------------------------------------------------------------

  /** The attributes of the Milestone record. */
  const Fields: set<string> := {"id", "title", "description", "start_date", "due_date", "status", "created_at", "updated_at"}

  /** The fields `update` refuses to change. */
  const Protected: set<string> := {"id", "created_at"}

  /** Python falsiness of a stored value. */
  predicate Falsy(v: SqlValue) {
    v == Null || v == Text("") || v == Int(0)
  }

  /** `x or ""`. */
  function OrEmpty(v: SqlValue): (r: SqlValue)
    ensures Falsy(v) ==> r == Text("")
    ensures !Falsy(v) ==> r == v
  {
    if Falsy(v) then Text("") else v
  }

  /** `create` (service and repository): status defaults to "planned",
      the description to "", both timestamps are now. */
  function Create(t: Table, title: string, description: SqlValue, start: Option<string>, due: Option<string>,
                  status: Option<string>, now: string): (r: (Table, int))
    ensures r.1 !in t.rows && r.1 in r.0.rows && r.0.rows == t.rows[r.1 := r.0.rows[r.1]]
    ensures var row := r.0.rows[r.1];
            && ValueOf(row, "status") == Text(status.GetOr("planned"))
            && ValueOf(row, "description") == OrEmpty(description)
            && ValueOf(row, "created_at") == ValueOf(row, "updated_at") == Text(now)
            && ValueOf(row, "title") == Text(title)
  {
    var id := NextAutoId(t);
    var row := map[
      "title" := Text(title), "description" := OrEmpty(description),
      "start_date" := if start.Some? then Text(start.value) else Null,
      "due_date" := if due.Some? then Text(due.value) else Null,
      "status" := Text(status.GetOr("planned")),
      "created_at" := Text(now), "updated_at" := Text(now)];
    (Put(t, id, row), id)
  }

  /** The value `update` ends up writing to a column: the keyword argument
      when one is given for it, the current value otherwise. */
  function Updated(current: Row, kwargs: map<string, SqlValue>, col: string): (v: SqlValue)
    ensures col in kwargs && col in Fields && col !in Protected ==> v == kwargs[col]
    ensures !(col in kwargs && col in Fields && col !in Protected) ==> v == ValueOf(current, col)
  {
    if col in kwargs && col in Fields && col !in Protected then kwargs[col] else ValueOf(current, col)
  }

  /** What a column of the repository's UPDATE receives: the value `update`
      ends up with, `or ""` for the description, as its TEXT column
      stores it. */
  function Written(current: Row, kwargs: map<string, SqlValue>, col: string): (v: SqlValue)
    requires col in {"title", "description", "start_date", "due_date", "status"}
    ensures col != "description" ==> (v.Null? <==> Updated(current, kwargs, col).Null?)
    ensures col == "description" ==> !v.Null? && (Falsy(Updated(current, kwargs, col)) ==> v == Text(""))
    ensures Updated(current, kwargs, col).Text? ==> v == Updated(current, kwargs, col)
    ensures Updated(current, kwargs, col).Int? && (col != "description" || Updated(current, kwargs, col).i != 0)
            ==> v == Text(Decimal(Updated(current, kwargs, col).i))
  {
    var u := Updated(current, kwargs, col);
    Affine(col, if col == "description" then OrEmpty(u) else u)
  }

  /** `update`: a missing milestone raises ValueError; otherwise every
      keyword naming a field other than id and created_at is applied,
      `updated_at` becomes now, and the repository writes title,
      description (or ""), dates and status back. A NULL title or status
      violates its NOT NULL column: sqlite3 raises IntegrityError and the
      row stays as it was. */
  function Update(t: Table, id: int, kwargs: map<string, SqlValue>, now: string): (r: Result<Table, string>)
    ensures r.Err? <==> id !in t.rows || Updated(t.rows[id], kwargs, "title").Null?
                                      || Updated(t.rows[id], kwargs, "status").Null?
    ensures id !in t.rows ==> r == Err("Milestone not found")
    ensures r.Ok? ==> r.value.rows.Keys == t.rows.Keys
    ensures r.Ok? ==> forall k :: k in t.rows && k != id ==> r.value.rows[k] == t.rows[k]
    ensures r.Ok? ==>
              var before := t.rows[id];
              var after := r.value.rows[id];
              && ValueOf(after, "updated_at") == Text(now)
              && ValueOf(after, "created_at") == ValueOf(before, "created_at")
              && ValueOf(after, "title") == Written(before, kwargs, "title")
              && ValueOf(after, "description") == Written(before, kwargs, "description")
              && ValueOf(after, "start_date") == Written(before, kwargs, "start_date")
              && ValueOf(after, "due_date") == Written(before, kwargs, "due_date")
              && ValueOf(after, "status") == Written(before, kwargs, "status")
              && (forall c :: c in before && c !in {"title", "description", "start_date", "due_date", "status", "updated_at"}
                    ==> ValueOf(after, c) == before[c])
  {
    if id !in t.rows then Err("Milestone not found")
    else
      var cur := t.rows[id];
      if Written(cur, kwargs, "title").Null? then Err("NOT NULL constraint failed: milestones.title")
      else if Written(cur, kwargs, "status").Null? then Err("NOT NULL constraint failed: milestones.status")
      else Ok(t.(rows := t.rows[id := WrittenRow(cur, kwargs, now)]))
  }

  /** The row after the repository's UPDATE. */
  function WrittenRow(cur: Row, kwargs: map<string, SqlValue>, now: string): (row: Row)
    ensures ValueOf(row, "updated_at") == Text(now)
    ensures ValueOf(row, "created_at") == ValueOf(cur, "created_at")
    ensures ValueOf(row, "title") == Written(cur, kwargs, "title")
    ensures ValueOf(row, "description") == Written(cur, kwargs, "description")
    ensures ValueOf(row, "start_date") == Written(cur, kwargs, "start_date")
    ensures ValueOf(row, "due_date") == Written(cur, kwargs, "due_date")
    ensures ValueOf(row, "status") == Written(cur, kwargs, "status")
    ensures forall c :: c in cur && c !in {"title", "description", "start_date", "due_date", "status", "updated_at"}
              ==> ValueOf(row, c) == cur[c]
  {
    cur["title" := Written(cur, kwargs, "title")][
        "description" := Written(cur, kwargs, "description")][
        "start_date" := Written(cur, kwargs, "start_date")][
        "due_date" := Written(cur, kwargs, "due_date")][
        "status" := Written(cur, kwargs, "status")][
        "updated_at" := Text(now)]
  }

  /** `update(id, title=None)` on an existing milestone raises and leaves
      the table as it was; `title=5` stores the text "5". */
  lemma UpdateNoneTitleRaises(t: Table, id: int, now: string)
    requires id in t.rows
    ensures Update(t, id, map["title" := Null], now).Err?
    ensures Update(t, id, map["status" := Null], now).Err?
    ensures ValueOf(t.rows[id], "status").Text? ==>
              Update(t, id, map["title" := Int(5)], now).Ok?
              && ValueOf(Update(t, id, map["title" := Int(5)], now).value.rows[id], "title") == Text("5")
  {
    assert Decimal(5) == "5";
  }

  /** Keyword arguments naming a protected field or no field at all have
      no effect. */
  lemma UpdateIgnoresProtectedAndUnknown(t: Table, id: int, kwargs: map<string, SqlValue>, now: string)
    ensures Update(t, id, kwargs, now)
            == Update(t, id, map k | k in kwargs && k in Fields && k !in Protected :: kwargs[k], now)
  {
    if id in t.rows {
      var kept := map k | k in kwargs && k in Fields && k !in Protected :: kwargs[k];
      forall col | col in {"title", "description", "start_date", "due_date", "status"}
        ensures Updated(t.rows[id], kwargs, col) == Updated(t.rows[id], kept, col)
      {
      }
      assert WrittenRow(t.rows[id], kwargs, now) == WrittenRow(t.rows[id], kept, now);
    }
  }

  // -------------------------------------------------------------------
  // Rust commands
  // -------------------------------------------------------------------

  /** `create_milestone`: status 'planned', created and updated now. */
  function CreateMilestone(t: Table, title: string, description: string, start: Option<string>, due: Option<string>,
                           now: string): (r: (Table, int))
    ensures r.1 !in t.rows && r.1 > t.sequence && r.1 in r.0.rows
    ensures r.0.rows == t.rows[r.1 := r.0.rows[r.1]]
    ensures var row := r.0.rows[r.1];
            && ValueOf(row, "status") == Text("planned")
            && ValueOf(row, "created_at") == ValueOf(row, "updated_at") == Text(now)
            && ValueOf(row, "title") == Text(title) && ValueOf(row, "description") == Text(description)
  {
    var id := NextAutoId(t);
    var row := map[
      "title" := Text(title), "description" := Text(description),
      "start_date" := if start.Some? then Text(start.value) else Null,
      "due_date" := if due.Some? then Text(due.value) else Null,
      "status" := Text("planned"), "created_at" := Text(now), "updated_at" := Text(now)];
    (Put(t, id, row), id)
  }

  /** `delete_milestone`: every issue pointing at it gets a NULL milestone,
      then the milestone row goes. */
  function DeleteMilestone(db: Db, id: int): (r: Db)
    requires "issues" in db.tables && "milestones" in db.tables
    ensures "issues" in r.tables && "milestones" in r.tables
    ensures r.tables["milestones"].rows == db.tables["milestones"].rows - {id}
    ensures r.tables["issues"].rows.Keys == db.tables["issues"].rows.Keys
    ensures forall k :: k in db.tables["issues"].rows ==>
              var before := db.tables["issues"].rows[k];
              r.tables["issues"].rows[k] ==
                (if ValueOf(before, "milestone_id") == Int(id) then before["milestone_id" := Null] else before)
    ensures Assigned(r.tables["issues"], id) == {}
  {
    var issues := db.tables["issues"];
    var unlinked := map k | k in issues.rows ::
      if ValueOf(issues.rows[k], "milestone_id") == Int(id) then issues.rows[k]["milestone_id" := Null] else issues.rows[k];
    var ms := db.tables["milestones"];
    db.(tables := db.tables["issues" := issues.(rows := unlinked)]["milestones" := ms.(rows := ms.rows - {id})])
  }

  /** Whether the row closure of `get_milestones` builds a `Milestone`
      from the row: the `String` columns must hold text and the
      `Option<String>` ones text or NULL; a row that fails is dropped. */
  predicate Decodes(row: Row) {
    && ValueOf(row, "title").Text? && ValueOf(row, "description").Text?
    && ValueOf(row, "status").Text?
    && ValueOf(row, "created_at").Text? && ValueOf(row, "updated_at").Text?
    && (ValueOf(row, "start_date").Text? || ValueOf(row, "start_date").Null?)
    && (ValueOf(row, "due_date").Text? || ValueOf(row, "due_date").Null?)
  }

  /** Every milestone row, newest `updated_at` first: the order both
      milestone queries share. */
  function ByNewest(t: Table, scan: seq<int>): (r: seq<(int, Row)>)
    requires Query.IsScanOf(scan, t)
    ensures |r| == |scan|
    ensures forall i, j :: 0 <= i < j < |r| ==> Query.RowLe("updated_at", true, r[i], r[j])
    ensures forall p: (int, Row) :: p in r <==> p.0 in t.rows && p.1 == t.rows[p.0]
  {
    Query.OrderBy(Query.Scan(t, scan), "updated_at", true)
  }

  /** `get_milestones`: the milestones that decode, newest `updated_at`
      first. Ties keep the engine's scan order. */
  function GetMilestones(t: Table, scan: seq<int>): (r: seq<(int, Row)>)
    requires Query.IsScanOf(scan, t)
    ensures |r| <= |scan|
    ensures forall i, j :: 0 <= i < j < |r| ==> Query.RowLe("updated_at", true, r[i], r[j])
    ensures forall p: (int, Row) :: p in r <==> p.0 in t.rows && p.1 == t.rows[p.0] && Decodes(p.1)
    ensures (forall id :: id in t.rows ==> Decodes(t.rows[id])) ==> r == ByNewest(t, scan)
  {
    AllDecodedKept(t, scan);
    Query.OrderBy(Query.Where(Query.Scan(t, scan), Decoded), "updated_at", true)
  }

  /** `Decodes` as a filter on (id, row) pairs. */
  predicate Decoded(id: int, row: Row) {
    Decodes(row)
  }

  /** With every row decoding, the filter keeps the whole scan. */
  lemma AllDecodedKept(t: Table, scan: seq<int>)
    requires Query.IsScanOf(scan, t)
    ensures (forall id :: id in t.rows ==> Decodes(t.rows[id])) ==> Query.Where(Query.Scan(t, scan), Decoded) == Query.Scan(t, scan)
  {
    if forall id :: id in t.rows ==> Decodes(t.rows[id]) {
      Query.WhereAll(Query.Scan(t, scan), Decoded);
    }
  }

  /** One row of `get_milestone_progress`. */
  datatype ProgressRow = ProgressRow(milestone: int, total: nat, closed: nat, percent: nat)

  function ProgressRows(issues: Table, ms: seq<(int, Row)>): (r: seq<ProgressRow>)
    ensures |r| == |ms|
    ensures forall i :: 0 <= i < |r| ==>
              && r[i].milestone == ms[i].0
              && (r[i].total, r[i].closed) == CountIssueProgress(issues, ms[i].0)
              && r[i].percent == Percent(r[i].total, r[i].closed)
              && r[i].percent <= 100
  {
    if |ms| == 0 then []
    else
      var (total, closed) := CountIssueProgress(issues, ms[0].0);
      PercentAtMost100(total, closed);
      [ProgressRow(ms[0].0, total, closed, Percent(total, closed))] + ProgressRows(issues, ms[1..])
  }

  /** `get_milestone_progress`: one row per milestone, newest `updated_at`
      first, with its issue counts. The query reads no text column, so no
      row is dropped. */
  function GetMilestoneProgress(db: Db, scan: seq<int>): (r: seq<ProgressRow>)
    requires "issues" in db.tables && "milestones" in db.tables
    requires Query.IsScanOf(scan, db.tables["milestones"])
    ensures |r| == |scan|
    ensures forall i :: 0 <= i < |r| ==>
              && r[i].milestone == ByNewest(db.tables["milestones"], scan)[i].0
              && r[i].milestone in db.tables["milestones"].rows
              && (r[i].total, r[i].closed) == CountIssueProgress(db.tables["issues"], r[i].milestone)
              && r[i].percent == Percent(r[i].total, r[i].closed)
              && r[i].percent <= 100
    ensures forall id :: id in db.tables["milestones"].rows <==> exists i :: 0 <= i < |r| && r[i].milestone == id
  {
    var ms := ByNewest(db.tables["milestones"], scan);
    RowsCoverListing(db.tables["milestones"], db.tables["issues"], ms);
    ProgressRows(db.tables["issues"], ms)
  }

  /** Progress rows over a listing of a whole table name exactly the
      table's ids. */
  lemma RowsCoverListing(t: Table, issues: Table, ms: seq<(int, Row)>)
    requires forall p: (int, Row) :: p in ms <==> p.0 in t.rows && p.1 == t.rows[p.0]
    ensures forall i :: 0 <= i < |ms| ==> ProgressRows(issues, ms)[i].milestone in t.rows
    ensures forall id :: id in t.rows ==>
              exists i :: 0 <= i < |ms| && ProgressRows(issues, ms)[i].milestone == id
  {
    var r := ProgressRows(issues, ms);
    forall i | 0 <= i < |ms| ensures r[i].milestone in t.rows {
      assert ms[i] in ms;
    }
    forall id | id in t.rows ensures exists i :: 0 <= i < |ms| && r[i].milestone == id {
      var p := (id, t.rows[id]);
      assert p in ms;
      var i :| 0 <= i < |ms| && ms[i] == p;
      assert r[i].milestone == id;
    }
  }

  /** When every milestone decodes, the progress rows line up one for one
      with the listing: the i-th progress row belongs to the i-th listed
      milestone. */
  lemma ProgressMatchesListing(db: Db, scan: seq<int>)
    requires "issues" in db.tables && "milestones" in db.tables
    requires Query.IsScanOf(scan, db.tables["milestones"])
    requires forall id :: id in db.tables["milestones"].rows ==> Decodes(db.tables["milestones"].rows[id])
    ensures |GetMilestoneProgress(db, scan)| == |GetMilestones(db.tables["milestones"], scan)|
    ensures forall i :: 0 <= i < |GetMilestoneProgress(db, scan)| ==>
              GetMilestoneProgress(db, scan)[i].milestone == GetMilestones(db.tables["milestones"], scan)[i].0
  {
  }

  /** A milestone that does not decode is missing from the listing but still
      has a progress row. */
  lemma UndecodableOnlyInProgress(db: Db, scan: seq<int>, id: int)
    requires "issues" in db.tables && "milestones" in db.tables
    requires Query.IsScanOf(scan, db.tables["milestones"])
    requires id in db.tables["milestones"].rows && !Decodes(db.tables["milestones"].rows[id])
    ensures forall p :: p in GetMilestones(db.tables["milestones"], scan) ==> p.0 != id
    ensures exists i :: 0 <= i < |GetMilestoneProgress(db, scan)| && GetMilestoneProgress(db, scan)[i].milestone == id
  {
    var t := db.tables["milestones"];
    var listed := GetMilestones(t, scan);
    forall p | p in listed ensures p.0 != id {
      assert p.1 == t.rows[p.0] && Decodes(p.1);
    }
    var r := GetMilestoneProgress(db, scan);
    assert exists i :: 0 <= i < |r| && r[i].milestone == id;
  }
}
