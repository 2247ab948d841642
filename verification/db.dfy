/** An in-memory picture of the SQLite database both builds share: the
    row tables (issues, comments, milestones) as maps from id to the row's
    other columns, and the relation tables (labels, issue labels, reactions)
    as maps and sets. */
module Database {
  import opened Wrappers

  /** A stored SQLite value. Floating-point values keep their literal text. */
  datatype SqlValue = Null | Int(i: int) | Real(raw: string) | Text(s: string)

  /** A row's columns other than `id`; a missing column reads as NULL. */
  type Row = map<string, SqlValue>

  /** A table with an `INTEGER PRIMARY KEY AUTOINCREMENT` id. `sequence` is
      the table's entry in `sqlite_sequence`: the largest id ever used. */
  datatype Table = Table(rows: map<int, Row>, sequence: int)

  /** A reaction row's key: (issue or comment id, user, reaction). */
  type ReactionKey = (int, string, string)

  datatype Db = Db(
    tables: map<string, Table>,
    labels: map<string, int>,        // labels: name -> id
    labelSequence: int,
    issueLabels: set<(int, int)>,    // issue_labels: (issue_id, label_id)
    issueReactions: set<ReactionKey>,
    commentReactions: set<ReactionKey>)

  /** `COALESCE(MAX(x), 0)` over a set of integers. */
  function MaxOr0(xs: set<int>): (m: int)
    ensures forall x :: x in xs ==> x <= m
    ensures xs == {} ==> m == 0
    ensures xs != {} ==> m in xs
  {
    if xs == {} then 0
    else
      MaxExists(xs);
      var m :| m in xs && forall x :: x in xs ==> x <= m;
      m
  }

  lemma {:induction false} MaxExists(xs: set<int>)
    requires xs != {}
    ensures exists m :: m in xs && forall x :: x in xs ==> x <= m
    decreases |xs|
  {
    if forall y :: y !in xs { assert false; }
    var y: int :| y in xs;
    if xs != {y} {
      MaxExists(xs - {y});
      var m :| m in xs - {y} && forall x :: x in xs - {y} ==> x <= m;
      var top := if y <= m then m else y;
      forall x | x in xs ensures x <= top {
        if x != y { assert x in xs - {y}; }
      }
      assert top in xs;
    } else {
      assert forall x :: x in xs ==> x <= y;
    }
  }

  /** `SELECT COALESCE(MAX(id), 0) + 1`. */
  function MaxIdPlusOne(t: Table): (id: int)
    ensures id !in t.rows
    ensures forall k :: k in t.rows ==> k < id
  {
    MaxOr0(t.rows.Keys) + 1
  }

  /** The id an insert without an explicit id receives under AUTOINCREMENT:
      one past both the largest id present and the largest id ever used. */
  function NextAutoId(t: Table): (id: int)
    ensures id !in t.rows && id > t.sequence
  {
    var m := MaxOr0(t.rows.Keys);
    (if m < t.sequence then t.sequence else m) + 1
  }

  /** `INSERT OR REPLACE` of a row under an explicit id. */
  function Put(t: Table, id: int, row: Row): (r: Table)
    ensures r.rows == t.rows[id := row]
    ensures r.sequence >= id && r.sequence >= t.sequence
  {
    Table(t.rows[id := row], if id < t.sequence then t.sequence else id)
  }

  /** The id of a label name, created with the next AUTOINCREMENT id when
      missing (`INSERT OR IGNORE INTO labels (name)` then `SELECT id`). */
  function EnsureLabel(db: Db, name: string): (r: (Db, int))
    ensures name in r.0.labels && r.0.labels[name] == r.1
    ensures name in db.labels ==> r.0 == db
    ensures name !in db.labels ==> r.0.labels == db.labels[name := r.1]
                                   && r.1 !in db.labels.Values
                                   && r.0 == db.(labels := r.0.labels, labelSequence := r.1)
  {
    if name in db.labels then (db, db.labels[name])
    else
      var m := MaxOr0(db.labels.Values);
      var id := (if m < db.labelSequence then db.labelSequence else m) + 1;
      (db.(labels := db.labels[name := id], labelSequence := id), id)
  }

  /** `EnsureLabel` only adds the name: every other label keeps its id,
      nothing else changes, and ids stay unique. */
  lemma EnsureLabelKeeps(db: Db, name: string)
    ensures var d := EnsureLabel(db, name).0;
            && (forall n :: n in db.labels ==> n in d.labels && d.labels[n] == db.labels[n])
            && d.labels.Keys == db.labels.Keys + {name}
            && d.tables == db.tables && d.issueLabels == db.issueLabels
            && d.issueReactions == db.issueReactions && d.commentReactions == db.commentReactions
            && (LabelIdsUnique(db) ==> LabelIdsUnique(d))
  {
  }

  /** `UPDATE <table> SET updated_at = now WHERE id = id`: only that row's
      `updated_at` changes; a missing row or table is left alone. */
  function Touch(db: Db, table: string, id: int, now: string): (r: Db)
    ensures r.labels == db.labels && r.issueLabels == db.issueLabels
    ensures r.issueReactions == db.issueReactions && r.commentReactions == db.commentReactions
    ensures r.tables.Keys == db.tables.Keys
    ensures forall t :: t in db.tables && t != table ==> r.tables[t] == db.tables[t]
    ensures table in db.tables ==> r.tables[table].rows.Keys == db.tables[table].rows.Keys
    ensures table in db.tables && id in db.tables[table].rows
            ==> r.tables[table].rows[id] == db.tables[table].rows[id]["updated_at" := Text(now)]
    ensures table in db.tables ==>
              (forall k :: k in db.tables[table].rows && k != id ==> r.tables[table].rows[k] == db.tables[table].rows[k])
    ensures !(table in db.tables && id in db.tables[table].rows) ==> r == db
  {
    if table in db.tables && id in db.tables[table].rows then
      var t := db.tables[table];
      db.(tables := db.tables[table := t.(rows := t.rows[id := t.rows[id]["updated_at" := Text(now)]])])
    else db
  }

  /** `Touch` reads only the row tables. */
  lemma TouchReadsTables(a: Db, b: Db, table: string, id: int, now: string)
    requires a.tables == b.tables
    ensures Touch(a, table, id, now).tables == Touch(b, table, id, now).tables
  {
  }

  /** The text stored in a column, None for NULL, a missing column or a
      non-text value. */
  function TextOf(row: Row, col: string): (r: Option<string>)
    ensures r.Some? <==> col in row && row[col].Text?
    ensures r.Some? ==> row[col] == Text(r.value)
  {
    if col in row && row[col].Text? then Some(row[col].s) else None
  }

  /** The text in column `col` of row `id`, None when the row is missing. */
  function ColumnText(t: Table, id: int, col: string): (r: Option<string>)
    ensures r.Some? ==> id in t.rows && col in t.rows[id] && t.rows[id][col] == Text(r.value)
    ensures id in t.rows ==> r == TextOf(t.rows[id], col)
  {
    if id in t.rows then TextOf(t.rows[id], col) else None
  }

  /** The issue a comment row belongs to. */
  function IssueOf(row: Row): (r: Option<int>)
    ensures r.Some? <==> "issue_id" in row && row["issue_id"].Int?
    ensures r.Some? ==> row["issue_id"] == Int(r.value)
  {
    if "issue_id" in row && row["issue_id"].Int? then Some(row["issue_id"].i) else None
  }

  /** The labels attached to an issue. */
  function LabelIdsOf(db: Db, issue: int): (ids: set<int>)
    ensures forall l :: l in ids <==> (issue, l) in db.issueLabels
  {
    set p | p in db.issueLabels && p.0 == issue :: p.1
  }

  /** Every label id names at most one label. */
  predicate LabelIdsUnique(db: Db) {
    forall a, b :: a in db.labels && b in db.labels && a != b ==> db.labels[a] != db.labels[b]
  }

  /** The ids the given names have in `labels`. */
  function IdsOf(labels: map<string, int>, names: set<string>): (ids: set<int>)
    ensures forall n :: n in names && n in labels ==> labels[n] in ids
  {
    set n | n in names && n in labels :: labels[n]
  }

  // -------------------------------------------------------------------
  // column affinity (src-tauri/src/db.rs)
  // -------------------------------------------------------------------

  /** The columns of each row table, `id` included, as the Rust and the
      Python schema both declare them (with the `milestone_id` migration);
      a table the schema does not declare has none. */
  function Columns(table: string): (cs: set<string>)
    ensures table !in {"issues", "comments", "milestones"} ==> cs == {}
    ensures table in {"issues", "comments", "milestones"} ==> "id" in cs && "created_at" in cs
  {
    if table == "issues" then
      {"id", "title", "body", "status", "created_by", "assignee", "created_at", "updated_at", "milestone_id"}
    else if table == "comments" then
      {"id", "issue_id", "body", "created_by", "created_at"}
    else if table == "milestones" then
      {"id", "title", "description", "start_date", "due_date", "status", "created_at", "updated_at"}
    else {}
  }

  /** The columns of each row table declared NOT NULL. */
  function NotNullColumns(table: string): (cs: set<string>)
    ensures cs <= Columns(table) && "id" !in cs
  {
    if table == "issues" then {"title", "status", "created_by", "created_at", "updated_at"}
    else if table == "comments" then {"issue_id", "body", "created_by", "created_at"}
    else if table == "milestones" then {"title", "status", "created_at", "updated_at"}
    else {}
  }

  /** The columns declared INTEGER in the schema; every other declared
      column is TEXT. */
  const IntegerColumns: set<string> := {"id", "milestone_id", "issue_id", "label_id", "comment_id"}

  const I64Min: int := -0x8000_0000_0000_0000
  const I64Max: int := 0x7FFF_FFFF_FFFF_FFFF

  function DigitChar(d: nat): (c: char)
    requires d < 10
    ensures '0' <= c <= '9' && c as int - '0' as int == d
  {
    ('0' as int + d) as char
  }

  /** The decimal digits of a natural number, most significant first. */
  function Digits(n: nat): (s: string)
    ensures |s| > 0 && forall i :: 0 <= i < |s| ==> '0' <= s[i] <= '9'
    decreases n
  {
    if n < 10 then [DigitChar(n)] else Digits(n / 10) + [DigitChar(n % 10)]
  }

  /** How SQLite renders an integer as text. */
  function Decimal(i: int): (s: string)
    ensures |s| > 0
    ensures s[0] == '-' <==> i < 0
  {
    if i < 0 then "-" + Digits(-i) else Digits(i)
  }

  predicate AllDigits(s: string) {
    forall i :: 0 <= i < |s| ==> '0' <= s[i] <= '9'
  }

  /** The value of a string of decimal digits. */
  function DigitsValue(s: string): (n: nat)
    requires AllDigits(s)
  {
    if |s| == 0 then 0
    else DigitsValue(s[..|s| - 1]) * 10 + (s[|s| - 1] as int - '0' as int)
  }

  /** The value of a non-empty run of digits, None for anything else. */
  function ParseDigits(s: string): (r: Option<nat>)
    ensures r.Some? <==> |s| > 0 && AllDigits(s)
  {
    if |s| == 0 || !AllDigits(s) then None else Some(DigitsValue(s))
  }

  /** A parsed magnitude with its sign, kept only within the `i64` range. */
  function Signed(v: Option<nat>, negative: bool): (r: Option<int>)
    ensures r.Some? ==> I64Min <= r.value <= I64Max
    ensures r.Some? ==> v.Some? && r.value == (if negative then 0 - v.value as int else v.value)
  {
    match v
    case None => None
    case Some(n) =>
      var x: int := if negative then 0 - n as int else n;
      if I64Min <= x <= I64Max then Some(x) else None
  }

  /** An integer literal SQLite converts when it enters an INTEGER column:
      an optional sign and at least one digit, within the `i64` range. */
  function ParseInteger(s: string): (r: Option<int>)
    ensures r.Some? ==> I64Min <= r.value <= I64Max
  {
    if |s| > 0 && s[0] == '-' then Signed(ParseDigits(s[1..]), true)
    else if |s| > 0 && s[0] == '+' then Signed(ParseDigits(s[1..]), false)
    else Signed(ParseDigits(s), false)
  }

  lemma {:induction false} DigitsValueOf(n: nat)
    ensures AllDigits(Digits(n)) && DigitsValue(Digits(n)) == n
    decreases n
  {
    if n >= 10 {
      var s := Digits(n / 10) + [DigitChar(n % 10)];
      DigitsValueOf(n / 10);
      assert s[..|s| - 1] == Digits(n / 10);
    }
  }

  /** Reading back the text SQLite writes for an integer gives the integer. */
  lemma ParseDecimal(i: int)
    requires I64Min <= i <= I64Max
    ensures ParseInteger(Decimal(i)) == Some(i)
  {
    var s := Decimal(i);
    if i < 0 {
      DigitsValueOf(-i);
      assert s[1..] == Digits(-i);
      assert ParseDigits(s[1..]) == Some(-i);
    } else {
      DigitsValueOf(i);
      assert ParseDigits(s) == Some(i);
    }
  }

  /** The value SQLite stores for `v` bound into column `col`: an integer
      entering a TEXT column becomes its decimal text, and an integer
      literal entering an INTEGER column becomes the integer. Anything else
      is stored as bound. */
  function Affine(col: string, v: SqlValue): (r: SqlValue)
    ensures col !in IntegerColumns && v.Int? ==> r == Text(Decimal(v.i))
    ensures col in IntegerColumns && v.Text? && ParseInteger(v.s).Some?
            ==> r == Int(ParseInteger(v.s).value)
    ensures r.Null? <==> v.Null?
    ensures r.Real? <==> v.Real?
    ensures r != v ==> (col in IntegerColumns <==> r.Int?) && (col !in IntegerColumns <==> r.Text?)
  {
    match v
    case Int(i) => if col in IntegerColumns then v else Text(Decimal(i))
    case Text(s) =>
      if col in IntegerColumns && ParseInteger(s).Some? then Int(ParseInteger(s).value) else v
    case _ => v
  }

  /** Storing a stored value again changes nothing. */
  lemma AffineIdempotent(col: string, v: SqlValue)
    ensures Affine(col, Affine(col, v)) == Affine(col, v)
  {
  }

  /** An integer in the `i64` range survives a trip through a TEXT column
      and back into an INTEGER one. */
  lemma TextColumnKeepsInteger(textCol: string, intCol: string, i: int)
    requires textCol !in IntegerColumns && intCol in IntegerColumns
    requires I64Min <= i <= I64Max
    ensures Affine(intCol, Affine(textCol, Int(i))) == Int(i)
  {
    ParseDecimal(i);
  }
}
