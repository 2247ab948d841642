/** Delta synchronisation between the machines sharing one data folder
    (`src-tauri/src/sync.rs`): each change is written as a JSON file into
    `.sync_temp`; every process polls that folder and applies the others'
    files to its own database, and a merge folds all files into the master
    database and deletes them. */
module Sync {
  import opened Wrappers
  import opened Database
  import Text
  import Sorting

  /** The largest `i32`; `target_id` and reassigned ids are `i32`. */
  const I32Max: int := 0x7FFF_FFFF

  /** A JSON value as `serde_json` holds it. Integers in the `i64` range are
      `JInt`; larger unsigned ones are `JBigUInt` and keep their digits;
      floats keep their literal; arrays and objects also keep their text
      (`Value::to_string`). */
  datatype Json =
    | JNull
    | JBool(b: bool)
    | JInt(i: int)
    | JBigUInt(digits: string)
    | JFloat(literal: string)
    | JStr(s: string)
    | JArray(items: seq<Json>, text: string)
    | JObject(fields: map<string, Json>, text: string)

  /** `DeltaSyncPayload`. */
  datatype Payload = Payload(timestamp: int, pcName: string, action: string,
                             table: string, targetId: int, changes: Json)

  /** How a JSON value is bound as an SQL parameter. */
  function ToSql(v: Json): (r: SqlValue)
    ensures v.JNull? <==> r.Null?
    ensures v.JStr? ==> r == Text(v.s)
    ensures v.JInt? ==> r == Int(v.i)
    ensures v.JBool? ==> r == Int(if v.b then 1 else 0)
    ensures v.JFloat? <==> r.Real?
  {
    match v
    case JNull => Null
    case JStr(s) => Text(s)
    case JInt(i) => Int(i)
    case JFloat(f) => Real(f)
    case JBool(b) => Int(if b then 1 else 0)
    case JBigUInt(d) => Text(d)
    case JArray(_, t) => Text(t)
    case JObject(_, t) => Text(t)
  }

  /** `changes.get(key).and_then(as_str)`. */
  function StrField(ch: map<string, Json>, key: string): (r: Option<string>)
    ensures r.Some? <==> key in ch && ch[key].JStr?
    ensures r.Some? ==> ch[key] == JStr(r.value)
  {
    if key in ch && ch[key].JStr? then Some(ch[key].s) else None
  }

  /** The columns a change writes, `id` excluded, each value as its
      column's affinity stores it. */
  function RowOf(ch: map<string, Json>): (row: Row)
    ensures row.Keys == ch.Keys - {"id"}
    ensures forall k :: k in row ==> row[k] == Affine(k, ToSql(ch[k]))
    ensures forall k :: k in row && k !in IntegerColumns && ch[k].JInt? ==> row[k] == Text(Decimal(ch[k].i))
    ensures forall k :: k in row && ch[k].JStr? && (k !in IntegerColumns || ParseInteger(ch[k].s).None?)
                        ==> row[k] == Text(ch[k].s)
  {
    map k | k in ch && k != "id" :: Affine(k, ToSql(ch[k]))
  }

  /** A number synced into a TEXT column is stored as its text, so a
      keyword search for its digits finds it. */
  lemma NumberInTextColumn()
    ensures RowOf(map["title" := JInt(5)])["title"] == Text("5")
    ensures RowOf(map["title" := JBool(true)])["title"] == Text("1")
  {
  }

  /** The result of `apply_delta`: its boolean and the database after it, or
      a panic from an `unwrap` on a malformed toggle. */
  datatype Outcome = Done(applied: bool, db: Db) | Panicked

  // -------------------------------------------------------------------
  // insert
  // -------------------------------------------------------------------

  /** The `created_by` of the row under `id`, None when there is none or it
      is not text. */
  function CreatedBy(t: Table, id: int): Option<string> {
    ColumnText(t, id, "created_by")
  }

  /** The id an insert with an `id` column is stored under: `target` unless
      a row created by somebody else already holds it, then MAX(id)+1 (or
      `target` again when that does not fit in an `i32`). */
  function InsertId(t: Table, target: int, ch: map<string, Json>): (id: int)
    ensures CreatedBy(t, target).Some? && StrField(ch, "created_by").Some?
            && CreatedBy(t, target) != StrField(ch, "created_by")
            && MaxIdPlusOne(t) <= I32Max
            ==> id == MaxIdPlusOne(t) && id !in t.rows
    ensures id != target ==> id !in t.rows && CreatedBy(t, target).Some?
    ensures (CreatedBy(t, target).None? || StrField(ch, "created_by").None?
             || CreatedBy(t, target) == StrField(ch, "created_by")) ==> id == target
  {
    var existing := CreatedBy(t, target);
    var incoming := StrField(ch, "created_by");
    if existing.Some? && incoming.Some? && existing.value != incoming.value then
      var n := MaxIdPlusOne(t);
      if n <= I32Max then n else target
    else target
  }

  /** `INSERT OR REPLACE` of the change. With an `id` column the row is
      stored under `InsertId` (the `id` value itself is not used); without
      one it gets the next AUTOINCREMENT id. A missing table is an SQL error,
      which is ignored. */
  function Insert(db: Db, table: string, target: int, ch: map<string, Json>): (r: Db)
    ensures table !in db.tables ==> r == db
    ensures table in db.tables ==>
              var t := db.tables[table];
              var id := if "id" in ch then InsertId(t, target, ch) else NextAutoId(t);
              r == db.(tables := db.tables[table := Put(t, id, RowOf(ch))])
  {
    if table !in db.tables then db
    else
      var t := db.tables[table];
      var id := if "id" in ch then InsertId(t, target, ch) else NextAutoId(t);
      db.(tables := db.tables[table := Put(t, id, RowOf(ch))])
  }

  // -------------------------------------------------------------------
  // update
  // -------------------------------------------------------------------

  /** The local `updated_at` of the target row, None when the table, the
      row or a text value is missing. */
  function LocalStamp(db: Db, table: string, target: int): Option<string> {
    if table in db.tables then ColumnText(db.tables[table], target, "updated_at") else None
  }

  /** Last writer wins: the change is dropped exactly when both sides carry
      an `updated_at` text and the local one is the greater string. */
  predicate LocalIsNewer(db: Db, table: string, target: int, ch: map<string, Json>) {
    && StrField(ch, "updated_at").Some?
    && LocalStamp(db, table, target).Some?
    && Text.StrLt(StrField(ch, "updated_at").value, LocalStamp(db, table, target).value)
  }

  /** Whether SQLite accepts `UPDATE <table> SET <changes>`: every key names
      a column of the table, and no NOT NULL column is set to NULL. */
  predicate Accepted(table: string, ch: map<string, Json>) {
    && ch.Keys <= Columns(table)
    && forall k :: k in ch && k in NotNullColumns(table) ==> !ch[k].JNull?
  }

  /** `UPDATE <table> SET <changes> WHERE id = target`. Every listed column
      is overwritten and the others kept; an `id` column moves the row to
      that id, which fails when another row holds it or the value is
      neither an integer nor integer text. A statement SQLite rejects (an
      unknown column, NULL into a NOT NULL column) changes nothing, and
      its error is discarded. */
  function UpdateRow(db: Db, table: string, target: int, ch: map<string, Json>): (r: Db)
    ensures !(table in db.tables && target in db.tables[table].rows) ==> r == db
    ensures !Accepted(table, ch) ==> r == db
    ensures table in db.tables && target in db.tables[table].rows && "id" !in ch && Accepted(table, ch) ==>
              r == db.(tables := db.tables[table := db.tables[table].(rows :=
                     db.tables[table].rows[target := db.tables[table].rows[target] + RowOf(ch)])])
    ensures r.labels == db.labels && r.issueLabels == db.issueLabels
    ensures r.issueReactions == db.issueReactions && r.commentReactions == db.commentReactions
    ensures r.tables.Keys == db.tables.Keys
    ensures forall other :: other in db.tables && other != table ==> r.tables[other] == db.tables[other]
  {
    if !(table in db.tables && target in db.tables[table].rows) || !Accepted(table, ch) then db
    else
      var t := db.tables[table];
      var row := t.rows[target] + RowOf(ch);
      if "id" !in ch then
        db.(tables := db.tables[table := t.(rows := t.rows[target := row])])
      else
        match Affine("id", ToSql(ch["id"]))
        case Int(v) =>
          if v == target then db.(tables := db.tables[table := t.(rows := t.rows[target := row])])
          else if v in t.rows then db
          else db.(tables := db.tables[table := t.(rows := (t.rows - {target})[v := row])])
        case _ => db
  }

  function Update(db: Db, table: string, target: int, ch: map<string, Json>): (r: Outcome)
    ensures r.Done?
    ensures !r.applied <==> LocalIsNewer(db, table, target, ch)
    ensures !r.applied ==> r.db == db
    ensures r.applied ==> r.db == UpdateRow(db, table, target, ch)
  {
    if LocalIsNewer(db, table, target, ch) then Done(false, db)
    else Done(true, UpdateRow(db, table, target, ch))
  }

  /** The soft-delete delta the comment commands send names a column the
      comments table does not have, so SQLite rejects the statement and
      the database stays as it was; on alice's comment the delta still
      counts as applied. */
  lemma UnknownColumnUpdateIsLost(db: Db, target: int, now: string)
    ensures Update(db, "comments", target, map["is_deleted" := JInt(1), "updated_at" := JStr(now)]).db == db
    ensures Update(AliceComment(), "comments", 5, map["is_deleted" := JInt(1), "updated_at" := JStr(now)])
            == Done(true, AliceComment())
  {
    var ch := map["is_deleted" := JInt(1), "updated_at" := JStr(now)];
    assert !Accepted("comments", ch) by {
      assert "is_deleted" in ch.Keys && "is_deleted" !in Columns("comments");
    }
    assert LocalStamp(AliceComment(), "comments", 5).None? by {
      assert "updated_at" !in AliceComment().tables["comments"].rows[5];
    }
  }

  /** A NOT NULL column set to NULL makes SQLite reject the update. */
  lemma NullIntoNotNullIsLost(db: Db, table: string, target: int, col: string, ch: map<string, Json>)
    requires col in ch && col in NotNullColumns(table) && ch[col] == JNull
    ensures UpdateRow(db, table, target, ch) == db
  {
  }

  // -------------------------------------------------------------------
  // toggle
  // -------------------------------------------------------------------

  /** The reaction key a toggle names; None when an `unwrap` would panic. */
  function ToggleKey(target: int, ch: map<string, Json>): Option<ReactionKey> {
    match (StrField(ch, "reacted_by"), StrField(ch, "reaction"))
    case (Some(user), Some(reaction)) => Some((target, user, reaction))
    case _ => None
  }

  /** Add or remove one key. */
  function Flip<T>(s: set<T>, key: T, deleted: bool): (r: set<T>)
    ensures deleted ==> r == s - {key}
    ensures !deleted ==> r == s + {key}
  {
    if deleted then s - {key} else s + {key}
  }

  /** A toggle on one of the reaction tables: `deleted = true` deletes the
      (target, user, reaction) row, `false` inserts it unless present. A
      toggle without a boolean `deleted` is not applied; one naming another
      table is reported applied but changes nothing. */
  function Toggle(db: Db, table: string, target: int, ch: map<string, Json>): (r: Outcome)
    ensures !("deleted" in ch && ch["deleted"].JBool?) ==> r == Done(false, db)
    ensures "deleted" in ch && ch["deleted"].JBool? && table != "issue_reactions" && table != "comment_reactions"
            ==> r == Done(true, db)
    ensures r.Panicked? <==> "deleted" in ch && ch["deleted"].JBool?
                              && (table == "issue_reactions" || table == "comment_reactions")
                              && ToggleKey(target, ch).None?
    ensures r.Done? && r.applied ==> r.db.tables == db.tables && r.db.labels == db.labels
                                     && r.db.issueLabels == db.issueLabels
  {
    if !("deleted" in ch && ch["deleted"].JBool?) then Done(false, db)
    else
      var deleted := ch["deleted"].b;
      if table == "issue_reactions" then
        match ToggleKey(target, ch)
        case None => Panicked
        case Some(k) => Done(true, db.(issueReactions := Flip(db.issueReactions, k, deleted)))
      else if table == "comment_reactions" then
        match ToggleKey(target, ch)
        case None => Panicked
        case Some(k) => Done(true, db.(commentReactions := Flip(db.commentReactions, k, deleted)))
      else Done(true, db)
  }

  // -------------------------------------------------------------------
  // set (issue_labels)
  // -------------------------------------------------------------------

  /** The names among the array items that are strings. */
  function StringItems(items: seq<Json>): (names: set<string>)
    ensures forall n :: n in names <==> JStr(n) in items
  {
    if |items| == 0 then {}
    else (if items[0].JStr? then {items[0].s} else {}) + StringItems(items[1..])
  }

  /** The pairs attaching each id to one issue. */
  function Attach(issue: int, ids: set<int>): (pairs: set<(int, int)>)
    ensures forall l :: (issue, l) in pairs <==> l in ids
    ensures forall p :: p in pairs ==> p.0 == issue
  {
    set l | l in ids :: (issue, l)
  }

  lemma AttachUnion(issue: int, a: set<int>, b: set<int>)
    ensures Attach(issue, a + b) == Attach(issue, a) + Attach(issue, b)
  {
    var x, y := Attach(issue, a + b), Attach(issue, a) + Attach(issue, b);
    forall p | p in x ensures p in y { assert p == (issue, p.1); }
    forall p | p in y ensures p in x { assert p == (issue, p.1); }
  }

  lemma IdsOfAdd(labels: map<string, int>, n: string, rest: set<string>)
    requires n in labels
    ensures IdsOf(labels, {n} + rest) == {labels[n]} + IdsOf(labels, rest)
  {
  }

  /** One string item: create the label if missing and attach it. */
  function AttachOne(db: Db, issue: int, name: string): (r: Db)
    requires LabelIdsUnique(db)
    ensures LabelIdsUnique(r)
    ensures r.labels == EnsureLabel(db, name).0.labels && name in r.labels
    ensures r.issueLabels == db.issueLabels + {(issue, r.labels[name])}
    ensures r.tables == db.tables
    ensures r.issueReactions == db.issueReactions && r.commentReactions == db.commentReactions
  {
    var (d, id) := EnsureLabel(db, name);
    EnsureLabelKeeps(db, name);
    d.(issueLabels := d.issueLabels + {(issue, id)})
  }

  /** The array loop of a label set: each string item is created if missing
      and attached to the issue; other items are skipped. */
  function AttachLabels(db: Db, issue: int, items: seq<Json>): (r: Db)
    requires LabelIdsUnique(db)
    ensures LabelIdsUnique(r)
    ensures forall n :: n in db.labels ==> n in r.labels && r.labels[n] == db.labels[n]
    ensures r.labels.Keys == db.labels.Keys + StringItems(items)
    ensures r.tables == db.tables
    ensures r.issueReactions == db.issueReactions && r.commentReactions == db.commentReactions
    decreases |items|
  {
    if |items| == 0 then db
    else
      StringItemsCons(items);
      if items[0].JStr? then AttachLabels(AttachOne(db, issue, items[0].s), issue, items[1..])
      else AttachLabels(db, issue, items[1..])
  }

  lemma StringItemsCons(items: seq<Json>)
    requires |items| > 0
    ensures items[0].JStr? ==> StringItems(items) == {items[0].s} + StringItems(items[1..])
    ensures !items[0].JStr? ==> StringItems(items) == StringItems(items[1..])
  {
  }

  /** After the loop the issue is attached to exactly the labels its string
      items name, on top of the pairs there before. */
  lemma {:induction false} AttachLabelsPairs(db: Db, issue: int, items: seq<Json>)
    requires LabelIdsUnique(db)
    ensures var r := AttachLabels(db, issue, items);
            r.issueLabels == db.issueLabels + Attach(issue, IdsOf(r.labels, StringItems(items)))
    decreases |items|
  {
    if |items| == 0 {
      assert Attach(issue, IdsOf(db.labels, StringItems(items))) == {};
    } else if items[0].JStr? {
      var n := items[0].s;
      var d := AttachOne(db, issue, n);
      var r := AttachLabels(d, issue, items[1..]);
      AttachLabelsPairs(d, issue, items[1..]);
      var rest := StringItems(items[1..]);
      var id := d.labels[n];
      assert StringItems(items) == {n} + rest;
      assert r.labels[n] == id;
      AttachNamed(issue, r.labels, n, rest);
      assert r.issueLabels == db.issueLabels + ({(issue, id)} + Attach(issue, IdsOf(r.labels, rest)));
    } else {
      assert StringItems(items) == StringItems(items[1..]);
      AttachLabelsPairs(db, issue, items[1..]);
    }
  }

  /** Attaching a named label and then the rest is attaching the ids of
      all the names. */
  lemma AttachNamed(issue: int, labels: map<string, int>, n: string, rest: set<string>)
    requires n in labels
    ensures {(issue, labels[n])} + Attach(issue, IdsOf(labels, rest)) == Attach(issue, IdsOf(labels, {n} + rest))
  {
    IdsOfAdd(labels, n, rest);
    AttachUnion(issue, {labels[n]}, IdsOf(labels, rest));
    assert Attach(issue, {labels[n]}) == {(issue, labels[n])};
  }

  /** `DELETE FROM issue_labels WHERE issue_id = issue`. */
  function DetachAll(pairs: set<(int, int)>, issue: int): (r: set<(int, int)>)
    ensures forall p :: p in r <==> p in pairs && p.0 != issue
  {
    set p | p in pairs && p.0 != issue
  }

  /** A `set` on `issue_labels`: the issue's labels become exactly the
      string items of `labels`; without an array it is not applied. */
  function SetLabels(db: Db, target: int, ch: map<string, Json>): (r: Outcome)
    requires LabelIdsUnique(db)
    ensures !("labels" in ch && ch["labels"].JArray?) <==> r == Done(false, db)
    ensures r.Done?
    ensures r.applied ==> r.db == AttachLabels(db.(issueLabels := DetachAll(db.issueLabels, target)),
                                               target, ch["labels"].items)
  {
    if "labels" in ch && ch["labels"].JArray? then
      var r := AttachLabels(db.(issueLabels := DetachAll(db.issueLabels, target)), target, ch["labels"].items);
      Done(true, r)
    else Done(false, db)
  }

  // -------------------------------------------------------------------
  // apply_delta
  // -------------------------------------------------------------------

  /** `apply_delta`: dispatch on the action. Non-object changes and unknown
      actions are not applied. */
  function ApplyDelta(db: Db, p: Payload): (r: Outcome)
    requires LabelIdsUnique(db)
    ensures !p.changes.JObject? ==> r == Done(false, db)
    ensures p.changes.JObject? && p.action == "insert"
            ==> r == Done(true, Insert(db, p.table, p.targetId, p.changes.fields))
    ensures p.changes.JObject? && p.action == "update" ==> r == Update(db, p.table, p.targetId, p.changes.fields)
    ensures p.changes.JObject? && p.action == "toggle" ==> r == Toggle(db, p.table, p.targetId, p.changes.fields)
    ensures p.changes.JObject? && p.action == "set" && p.table == "issue_labels"
            ==> r == SetLabels(db, p.targetId, p.changes.fields)
    ensures p.action !in {"insert", "update", "toggle"} && !(p.action == "set" && p.table == "issue_labels")
            ==> r == Done(false, db)
    ensures r.Done? && !r.applied ==> r.db == db
    ensures r.Done? ==> LabelIdsUnique(r.db)
  {
    if !p.changes.JObject? then Done(false, db)
    else
      var ch := p.changes.fields;
      if p.action == "insert" then Done(true, Insert(db, p.table, p.targetId, ch))
      else if p.action == "update" then Update(db, p.table, p.targetId, ch)
      else if p.action == "toggle" then Toggle(db, p.table, p.targetId, ch)
      else if p.action == "set" && p.table == "issue_labels" then SetLabels(db, p.targetId, ch)
      else Done(false, db)
  }

  /** The effect of a label set on the issue-label relation: the issue ends
      with exactly the labels its string items name, every such name exists,
      and no other issue's labels change. */
  lemma SetLabelsEffect(db: Db, target: int, ch: map<string, Json>)
    requires LabelIdsUnique(db)
    requires "labels" in ch && ch["labels"].JArray?
    ensures var r := SetLabels(db, target, ch);
            && r.applied
            && LabelIdsOf(r.db, target) == IdsOf(r.db.labels, StringItems(ch["labels"].items))
            && (forall n :: n in StringItems(ch["labels"].items) ==> n in r.db.labels)
            && (forall p: (int, int) :: p.0 != target ==> (p in r.db.issueLabels <==> p in db.issueLabels))
            && (forall n :: n in db.labels ==> n in r.db.labels && r.db.labels[n] == db.labels[n])
  {
    var items := ch["labels"].items;
    var start := db.(issueLabels := DetachAll(db.issueLabels, target));
    AttachLabelsPairs(start, target, items);
    var r := AttachLabels(start, target, items);
    forall l ensures l in LabelIdsOf(r, target) <==> l in IdsOf(r.labels, StringItems(items)) {
      assert (target, l) in r.issueLabels <==> (target, l) in Attach(target, IdsOf(r.labels, StringItems(items)));
    }
  }

  /** A toggle change naming one reaction. */
  function ToggleChange(deleted: bool, user: string, reaction: string): map<string, Json> {
    map["deleted" := JBool(deleted), "reacted_by" := JStr(user), "reaction" := JStr(reaction)]
  }

  /** Adding a reaction that was not there and then removing it restores
      the database; removing one that was there and adding it back too. */
  lemma ToggleRoundTrip(db: Db, target: int, user: string, reaction: string)
    ensures (target, user, reaction) !in db.issueReactions ==>
              var once := Toggle(db, "issue_reactions", target, ToggleChange(false, user, reaction));
              once.Done? && Toggle(once.db, "issue_reactions", target, ToggleChange(true, user, reaction)) == Done(true, db)
    ensures (target, user, reaction) in db.issueReactions ==>
              var once := Toggle(db, "issue_reactions", target, ToggleChange(true, user, reaction));
              once.Done? && Toggle(once.db, "issue_reactions", target, ToggleChange(false, user, reaction)) == Done(true, db)
  {
    var k := (target, user, reaction);
    assert ToggleKey(target, ToggleChange(false, user, reaction)) == Some(k);
    assert ToggleKey(target, ToggleChange(true, user, reaction)) == Some(k);
    if k !in db.issueReactions {
      assert db.issueReactions + {k} - {k} == db.issueReactions;
    } else {
      assert db.issueReactions - {k} + {k} == db.issueReactions;
    }
  }

  /** An update without an `id` column is idempotent: applying it again
      changes nothing more. */
  lemma UpdateIdempotent(db: Db, table: string, target: int, ch: map<string, Json>)
    requires "id" !in ch
    requires Update(db, table, target, ch).applied
    ensures var once := Update(db, table, target, ch).db;
            Update(once, table, target, ch) == Done(true, once)
  {
    UpdateRowAgain(db, table, target, ch);
    NotNewerAfterUpdate(db, table, target, ch);
  }

  /** Writing the same columns again leaves the row as it is. */
  lemma UpdateRowAgain(db: Db, table: string, target: int, ch: map<string, Json>)
    requires "id" !in ch
    ensures var once := UpdateRow(db, table, target, ch);
            UpdateRow(once, table, target, ch) == once
  {
    if table in db.tables && target in db.tables[table].rows && Accepted(table, ch) {
      var row := db.tables[table].rows[target] + RowOf(ch);
      UpdateRowIsSetRow(db, table, target, ch);
      var once := SetRow(db, table, target, row);
      UpdateRowIsSetRow(once, table, target, ch);
      OverwriteTwice(db.tables[table].rows[target], RowOf(ch));
      SetRowSame(once, table, target);
      SetRowTwice(db, table, target, row, row);
    }
  }

  /** `db` with row `target` of `table` replaced by `row`. */
  function SetRow(db: Db, table: string, target: int, row: Row): (r: Db)
    requires table in db.tables
    ensures table in r.tables && target in r.tables[table].rows && r.tables[table].rows[target] == row
  {
    db.(tables := db.tables[table := db.tables[table].(rows := db.tables[table].rows[target := row])])
  }

  /** An accepted update without an `id` column writes its columns into the
      target row. */
  lemma UpdateRowIsSetRow(db: Db, table: string, target: int, ch: map<string, Json>)
    requires table in db.tables && target in db.tables[table].rows
    requires "id" !in ch && Accepted(table, ch)
    ensures UpdateRow(db, table, target, ch) == SetRow(db, table, target, db.tables[table].rows[target] + RowOf(ch))
  {
  }

  /** Replacing a row by itself changes nothing. */
  lemma SetRowSame(db: Db, table: string, target: int)
    requires table in db.tables && target in db.tables[table].rows
    ensures SetRow(db, table, target, db.tables[table].rows[target]) == db
  {
    var t := db.tables[table];
    assert t.rows[target := t.rows[target]] == t.rows;
    assert db.tables[table := t] == db.tables;
  }

  /** The later of two replacements of one row wins. */
  lemma SetRowTwice(db: Db, table: string, target: int, a: Row, b: Row)
    requires table in db.tables
    ensures SetRow(SetRow(db, table, target, a), table, target, b) == SetRow(db, table, target, b)
  {
    var t := db.tables[table];
    assert t.rows[target := a][target := b] == t.rows[target := b];
  }

  /** After an update its own `updated_at` is the local one, so last writer
      wins lets it through again. */
  lemma NotNewerAfterUpdate(db: Db, table: string, target: int, ch: map<string, Json>)
    requires "id" !in ch
    requires !LocalIsNewer(db, table, target, ch)
    ensures !LocalIsNewer(UpdateRow(db, table, target, ch), table, target, ch)
  {
    var once := UpdateRow(db, table, target, ch);
    if table in db.tables && target in db.tables[table].rows && Accepted(table, ch) && StrField(ch, "updated_at").Some? {
      var u := StrField(ch, "updated_at").value;
      assert RowOf(ch)["updated_at"] == Text(u);
      assert once.tables[table].rows[target]["updated_at"] == Text(u);
      assert LocalStamp(once, table, target) == Some(u);
      Text.StrLtIrreflexive(u);
    }
  }

  /** Writing the same columns twice is writing them once. */
  lemma OverwriteTwice(a: Row, b: Row)
    ensures (a + b) + b == a + b
  {
  }

  /** An insert that stays under its own id is idempotent. */
  lemma InsertIdempotentWithoutCollision(db: Db, table: string, target: int, ch: map<string, Json>)
    requires table in db.tables && "id" in ch
    requires InsertId(db.tables[table], target, ch) == target
    ensures var once := Insert(db, table, target, ch);
            Insert(once, table, target, ch) == once
  {
    var t := db.tables[table];
    var t' := Put(t, target, RowOf(ch));
    assert CreatedBy(t', target) == TextOf(RowOf(ch), "created_by");
    if CreatedBy(t', target).Some? && StrField(ch, "created_by").Some? {
      assert CreatedBy(t', target) == StrField(ch, "created_by");
    }
    assert InsertId(t', target, ch) == target;
    assert Put(t', target, RowOf(ch)) == t';
    var once := Insert(db, table, target, ch);
    assert once.tables[table] == t';
    assert once.tables[table := t'] == once.tables;
  }

  /** The comments table of the examples below: comment 5 written by alice. */
  function AliceComment(): Db {
    Db(map["comments" := Table(map[5 := AliceRow("a")], 5)],
       map[], 0, {}, {}, {})
  }

  /** Bob's new comment on issue 1, which his machine stored as comment 5:
      every NOT NULL column of the comments table is given. */
  function BobInsert(): map<string, Json> {
    map["id" := JInt(5), "issue_id" := JInt(1), "body" := JStr("b"),
        "created_by" := JStr("bob"), "created_at" := JStr("t1")]
  }

  /** The row bob's insert stores. */
  function BobStored(): Row {
    map["issue_id" := Int(1), "body" := Text("b"), "created_by" := Text("bob"), "created_at" := Text("t1")]
  }

  /** A colliding insert is moved to MAX(id)+1, but the later updates of
      that comment still name the original id and so edit alice's comment;
      applying the same insert again stores a second copy. */
  lemma CollisionMisroutesLaterDeltas()
    ensures Insert(AliceComment(), "comments", 5, BobInsert()) == AfterBob()
    ensures Update(AfterBob(), "comments", 5, map["body" := JStr("b2")]).db == AfterEdit()
    ensures Insert(AfterBob(), "comments", 5, BobInsert()).tables["comments"].rows.Keys == {5, 6, 7}
  {
    FirstInsertMoves();
    LaterUpdateEditsAlice();
    SecondInsertMoves();
  }

  /** The later update of bob's comment rewrites alice's. */
  lemma LaterUpdateEditsAlice()
    ensures Update(AfterBob(), "comments", 5, map["body" := JStr("b2")]).db == AfterEdit()
  {
    var ch := map["body" := JStr("b2")];
    assert StrField(ch, "updated_at") == None;
    EditRow();
  }

  /** The row-level effect of the later update. */
  lemma EditRow()
    ensures UpdateRow(AfterBob(), "comments", 5, map["body" := JStr("b2")]) == AfterEdit()
  {
    EditAccepted();
    UpdateRowIsSetRow(AfterBob(), "comments", 5, map["body" := JStr("b2")]);
    EditChangeRow();
    AliceEdited();
    EditedTable();
  }

  /** SQLite accepts the later update: `body` is a column of comments. */
  lemma EditAccepted()
    ensures Accepted("comments", map["body" := JStr("b2")])
  {
    assert map["body" := JStr("b2")].Keys == {"body"};
  }

  /** Replacing alice's row in the table after bob's insert. */
  lemma EditedTable()
    ensures SetRow(AfterBob(), "comments", 5, AliceRow("b2")) == AfterEdit()
  {
    var t1 := AfterBob().tables["comments"];
    assert t1.(rows := t1.rows[5 := AliceRow("b2")]) == AfterEdit().tables["comments"];
  }

  /** Alice's comment on issue 1 with the given body. */
  function AliceRow(body: string): Row {
    map["issue_id" := Int(1), "body" := Text(body), "created_by" := Text("alice"), "created_at" := Text("t0")]
  }

  lemma AliceEdited()
    ensures AliceRow("a") + map["body" := Text("b2")] == AliceRow("b2")
  {
  }

  /** Bob's insert lands under id 6, beside alice's comment. */
  lemma FirstInsertMoves()
    ensures Insert(AliceComment(), "comments", 5, BobInsert()) == AfterBob()
  {
    BobRow();
    var t := AliceComment().tables["comments"];
    TopId(t, 5);
    BobCollides(t, "alice");
  }

  /** The same insert applied again lands under id 7. */
  lemma SecondInsertMoves()
    ensures Insert(AfterBob(), "comments", 5, BobInsert()).tables["comments"].rows.Keys == {5, 6, 7}
  {
    BobRow();
    var t1 := AfterBob().tables["comments"];
    TopId(t1, 6);
    BobCollides(t1, "alice");
  }

  /** The next id of a table whose largest id is `m`. */
  lemma TopId(t: Table, m: int)
    requires m in t.rows && forall k :: k in t.rows ==> k <= m
    ensures MaxIdPlusOne(t) == m + 1
  {
  }

  /** Bob's insert collides with a comment 5 written by somebody else. */
  lemma BobCollides(t: Table, other: string)
    requires 5 in t.rows && "created_by" in t.rows[5] && t.rows[5]["created_by"] == Text(other)
    requires other != "bob" && MaxIdPlusOne(t) <= I32Max
    ensures InsertId(t, 5, BobInsert()) == MaxIdPlusOne(t)
  {
    assert StrField(BobInsert(), "created_by") == Some("bob");
  }

  /** The examples' database after the update: alice's comment now holds
      bob's edit, and bob's own copy under id 6 is unchanged. */
  function AfterEdit(): Db {
    Db(map["comments" := Table(map[5 := AliceRow("b2"),
                                   6 := BobStored()], 6)],
       map[], 0, {}, {}, {})
  }

  /** The examples' database after bob's first insert. */
  function AfterBob(): Db {
    Db(map["comments" := Table(map[5 := AliceRow("a"),
                                   6 := BobStored()], 6)],
       map[], 0, {}, {}, {})
  }

  /** The columns the examples' changes write. */
  lemma BobRow()
    ensures RowOf(BobInsert()) == BobStored()
  {
    var r := RowOf(BobInsert());
    assert r.Keys == BobStored().Keys;
    assert r["issue_id"] == Int(1);
    TextStored("body", "b");
    TextStored("created_by", "bob");
    TextStored("created_at", "t1");
  }

  /** The column the later update writes. */
  lemma EditChangeRow()
    ensures RowOf(map["body" := JStr("b2")]) == map["body" := Text("b2")]
  {
    TextStored("body", "b2");
  }

  /** Text entering a TEXT column is stored as it is. */
  lemma TextStored(col: string, s: string)
    requires col in {"body", "created_by", "created_at"}
    ensures Affine(col, ToSql(JStr(s))) == Text(s)
  {
  }

  // -------------------------------------------------------------------
  // poll selection
  // -------------------------------------------------------------------

  /** One entry of the sync folder. */
  datatype DirEntry = DirEntry(name: string, isFile: bool)

  /** `Path::extension() == "json"`: a non-empty stem, then ".json". */
  predicate HasJsonExt(name: string) {
    |name| >= 6 && Text.IsSuffix(".json", name)
  }

  /** The names of the regular `.json` files, in directory order. */
  function DeltaNames(entries: seq<DirEntry>): (names: seq<string>)
    ensures forall n :: n in names <==> DirEntry(n, true) in entries && HasJsonExt(n)
  {
    if |entries| == 0 then []
    else
      var rest := DeltaNames(entries[1..]);
      assert forall e :: e in entries <==> e == entries[0] || e in entries[1..];
      if entries[0].isFile && HasJsonExt(entries[0].name) then [entries[0].name] + rest else rest
  }

  lemma StrLeIsTotalPreorder()
    ensures Sorting.TotalPreorder(Text.StrLe)
  {
    forall a, b ensures Text.StrLe(a, b) || Text.StrLe(b, a) {
      Text.StrLeTotal(a, b);
    }
    forall a, b, c | Text.StrLe(a, b) && Text.StrLe(b, c) ensures Text.StrLe(a, c) {
      Text.StrLeTransitive(a, b, c);
    }
  }

  /** The delta files sorted by name (`sort_by_key(file_name)`). */
  function Ordered(entries: seq<DirEntry>): (names: seq<string>)
    ensures Sorting.SortedBy(names, Text.StrLe)
    ensures forall n :: n in names <==> DirEntry(n, true) in entries && HasJsonExt(n)
  {
    StrLeIsTotalPreorder();
    Sorting.SortByElements(DeltaNames(entries), Text.StrLe);
    Sorting.SortBy(DeltaNames(entries), Text.StrLe)
  }

  /** The file loop's bookkeeping: a name containing this PC's name is
      skipped, an already attempted one too; every other name is attempted
      and recorded as attempted, whatever applying it gives. */
  function Select(names: seq<string>, applied: set<string>, pc: string): (r: (seq<string>, set<string>))
    ensures forall x :: x in r.0 <==> x in names && !Text.Contains(x, pc) && x !in applied
    ensures r.1 == applied + set x | x in r.0
    ensures Sorting.Distinct(r.0)
    ensures Sorting.SortedBy(names, Text.StrLe) ==> Sorting.SortedBy(r.0, Text.StrLe)
    decreases |names|
  {
    if |names| == 0 then ([], applied)
    else if Text.Contains(names[0], pc) || names[0] in applied then
      var r := Select(names[1..], applied, pc);
      assert forall x :: x in names <==> x == names[0] || x in names[1..];
      r
    else
      var rest := Select(names[1..], applied + {names[0]}, pc);
      assert forall x :: x in names <==> x == names[0] || x in names[1..];
      assert names[0] !in rest.0;
      assert Sorting.SortedBy(names, Text.StrLe) ==> forall x :: x in rest.0 ==> Text.StrLe(names[0], x);
      ([names[0]] + rest.0, rest.1)
  }

  /** Names sorted without repetition are strictly ascending. */
  lemma StrictlyAscending(s: seq<string>)
    requires Sorting.SortedBy(s, Text.StrLe) && Sorting.Distinct(s)
    ensures forall i, j :: 0 <= i < j < |s| ==> Text.StrLt(s[i], s[j])
  {
    forall i, j | 0 <= i < j < |s| ensures Text.StrLt(s[i], s[j]) {
      Text.StrLtTrichotomy(s[i], s[j]);
    }
  }

  /** What one poll iteration decides to apply, and the attempted set after it. */
  function PollPlan(entries: seq<DirEntry>, applied: set<string>, pc: string): (r: (seq<string>, set<string>))
    ensures forall x :: x in r.0 <==> DirEntry(x, true) in entries && HasJsonExt(x)
                                      && !Text.Contains(x, pc) && x !in applied
    ensures forall i, j :: 0 <= i < j < |r.0| ==> Text.StrLt(r.0[i], r.0[j])
    ensures r.1 == applied + set x | x in r.0
  {
    var r := Select(Ordered(entries), applied, pc);
    StrictlyAscending(r.0);
    r
  }

  /** A name is attempted at most once per process: a later iteration, even
      over a folder listing it again, does not pick it up. */
  lemma PollNeverRepeats(e1: seq<DirEntry>, e2: seq<DirEntry>, applied: set<string>, pc: string)
    ensures var first := PollPlan(e1, applied, pc);
            forall x :: x in PollPlan(e2, first.1, pc).0 ==> x !in first.0
  {
  }

  /** Apply the named files in order; a name with no decodable payload is
      passed over. The boolean says whether any apply returned true. */
  function ApplyFiles(db: Db, names: seq<string>, parsed: map<string, Payload>): (r: Outcome)
    requires LabelIdsUnique(db)
    ensures r.Done? ==> LabelIdsUnique(r.db)
    ensures r.Done? && !r.applied ==> r.db == db
    decreases |names|
  {
    if |names| == 0 then Done(false, db)
    else if names[0] !in parsed then ApplyFiles(db, names[1..], parsed)
    else
      match ApplyDelta(db, parsed[names[0]])
      case Panicked => Panicked
      case Done(a, d) =>
        match ApplyFiles(d, names[1..], parsed)
        case Panicked => Panicked
        case Done(b, d') => Done(a || b, d')
  }

  /** One poll iteration: its database, the attempted set and whether the
      front end is told to refresh; a panic ends the sync thread. */
  datatype Poll = Poll(db: Db, applied: set<string>, refresh: bool) | PollPanicked

  function PollOnce(db: Db, entries: seq<DirEntry>, applied: set<string>, pc: string,
                    parsed: map<string, Payload>): (r: Poll)
    requires LabelIdsUnique(db)
    ensures r.Poll? ==> r.applied == PollPlan(entries, applied, pc).1
    ensures r.Poll? && !r.refresh ==> r.db == db
    ensures r.PollPanicked? <==> ApplyFiles(db, PollPlan(entries, applied, pc).0, parsed).Panicked?
  {
    var plan := PollPlan(entries, applied, pc);
    match ApplyFiles(db, plan.0, parsed)
    case Panicked => PollPanicked
    case Done(any, d) => Poll(d, plan.1, any)
  }

  // -------------------------------------------------------------------
  // merge
  // -------------------------------------------------------------------

  datatype MergeError = LockBusy | NoDatabase | CopyFailed | OverwriteFailed | Panic

  /** What a merge observes: the sync folder, the decodable payloads, the
      master and local databases, and whether each fallible step succeeds
      (acquiring the merge lock, copying into `temp_merge.db`, copying the
      result over the master). `acquire_merge_lock` and
      `release_merge_lock` are defined in no source file, so `lockOk` is a
      free choice rather than a function of any lock state. */
  datatype MergeEnv = MergeEnv(dirExists: bool, entries: seq<DirEntry>, parsed: map<string, Payload>,
                               master: Option<Db>, local: Option<Db>,
                               lockOk: bool, copyOk: bool, overwriteOk: bool)

  /** The result, the master afterwards, the names left in the folder, and
      whether the merge lock is still held. */
  datatype MergeResult = MergeResult(result: Result<Unit, MergeError>, master: Option<Db>,
                                     files: set<string>, lockHeld: bool)

  predicate WellFormed(d: Option<Db>) {
    d.Some? ==> LabelIdsUnique(d.value)
  }

  function Names(entries: seq<DirEntry>): set<string> {
    set e | e in entries :: e.name
  }

  /** The database the merge starts from: the master when there is one,
      otherwise the local copy. */
  function MergeBase(env: MergeEnv): (d: Db)
    requires env.master.Some? || env.local.Some?
    requires WellFormed(env.master) && WellFormed(env.local)
    ensures LabelIdsUnique(d)
    ensures env.master.Some? ==> d == env.master.value
  {
    if env.master.Some? then env.master.value else env.local.value
  }

  /** `merge_sync_temp_to_master`. */
  function Merge(env: MergeEnv): (r: MergeResult)
    requires WellFormed(env.master) && WellFormed(env.local)
    ensures r.lockHeld <==> r.result == Err(Panic)
    ensures r.files != Names(env.entries) ==> r.result.Ok?
    ensures !r.result.Ok? ==> r.master == env.master && r.files == Names(env.entries)
    ensures r.files <= Names(env.entries)
    ensures forall n :: n in Names(env.entries) && n !in r.files
              ==> DirEntry(n, true) in env.entries && HasJsonExt(n) && n in env.parsed
    ensures r.result.Ok? && r.master != env.master ==>
              forall n :: DirEntry(n, true) in env.entries && HasJsonExt(n) && n in env.parsed ==> n !in r.files
    ensures r.master != env.master ==> r.master.Some?
    ensures !env.dirExists || |Ordered(env.entries)| == 0 ==> r == MergeResult(Ok(Unit), env.master, Names(env.entries), false)
    ensures env.dirExists && |Ordered(env.entries)| > 0 && r.result.Ok? ==>
              && (env.master.Some? || env.local.Some?)
              && ApplyFiles(MergeBase(env), Ordered(env.entries), env.parsed).Done?
              && r.master == Some(ApplyFiles(MergeBase(env), Ordered(env.entries), env.parsed).db)
              && r.files == Names(env.entries) - set n | n in Ordered(env.entries) && n in env.parsed
  {
    var all := Names(env.entries);
    var names := Ordered(env.entries);
    if !env.dirExists || |names| == 0 then MergeResult(Ok(Unit), env.master, all, false)
    else if !env.lockOk then MergeResult(Err(LockBusy), env.master, all, false)
    else if env.master.None? && env.local.None? then MergeResult(Err(NoDatabase), env.master, all, false)
    else if !env.copyOk then MergeResult(Err(CopyFailed), env.master, all, false)
    else
      match ApplyFiles(MergeBase(env), names, env.parsed)
      case Panicked => MergeResult(Err(Panic), env.master, all, true)
      case Done(_, merged) =>
        if !env.overwriteOk then MergeResult(Err(OverwriteFailed), env.master, all, false)
        else
          var done := set n | n in names && n in env.parsed;
          MergeResult(Ok(Unit), Some(merged), all - done, false)
  }

  /** With no name already attempted, a selection over distinct names none
      of which holds the PC's name keeps them all, in order. */
  lemma {:induction false} SelectKeepsAll(names: seq<string>, applied: set<string>, pc: string)
    requires Sorting.Distinct(names)
    requires forall i :: 0 <= i < |names| ==> !Text.Contains(names[i], pc) && names[i] !in applied
    ensures Select(names, applied, pc).0 == names
    decreases |names|
  {
    if |names| > 0 {
      assert forall i :: 0 <= i < |names| - 1 ==> names[1..][i] == names[i + 1];
      SelectKeepsAll(names[1..], applied + {names[0]}, pc);
    }
  }

  /** A merge that succeeds leaves the master as one poll iteration over the
      same folder would leave its database, when that poll starts from the
      same base with nothing attempted and no file is named after its PC. */
  lemma MergeAgreesWithPoll(env: MergeEnv, pc: string)
    requires WellFormed(env.master) && WellFormed(env.local)
    requires env.dirExists && |Ordered(env.entries)| > 0
    requires Merge(env).result.Ok?
    requires Sorting.Distinct(Ordered(env.entries))
    requires forall n :: n in Ordered(env.entries) ==> !Text.Contains(n, pc)
    ensures PollOnce(MergeBase(env), env.entries, {}, pc, env.parsed).Poll?
    ensures Merge(env).master == Some(PollOnce(MergeBase(env), env.entries, {}, pc, env.parsed).db)
  {
    var names := Ordered(env.entries);
    SelectKeepsAll(names, {}, pc);
    assert PollPlan(env.entries, {}, pc).0 == names;
  }
}
