/** The Python issue and comment repositories and the issue service's
    policies (`app/database/repositories/issues.py`, `comments.py`,
    `app/services/issue_service.py`, `app/ui/helpers.py`). Every
    repository call runs in one transaction with foreign keys on, so a
    statement that breaks a reference rolls the whole call back. */
module Issues {
  import opened Wrappers
  import opened Database
  import Labels
  import Query
  import Sorting

  /** Why a call raised. */
  datatype Failure =
    | NotFound                    // ValueError: the issue does not exist
    | ForeignKey                  // sqlite3.IntegrityError: a dangling reference
    | Unsupported(reaction: string) // ValueError from the reaction whitelist
    | NoSuchRepositoryFunction    // AttributeError: the repository lacks the function

  const ColorOpen := "#2da44e"
  const ColorClosed := "#8250df"

  /** `status_color`. */
  function StatusColor(status: string): (c: string)
    ensures c == ColorOpen <==> status == "OPEN"
    ensures c == ColorOpen || c == ColorClosed
  {
    if status == "OPEN" then ColorOpen else ColorClosed
  }

  /** The status an issue row holds, when it holds text. */
  function StatusOf(row: Row): Option<string> {
    TextOf(row, "status")
  }

  /** `toggle_status`: OPEN becomes CLOSED, anything else OPEN; the new
      status is returned and `updated_at` is set. A missing issue raises. */
  function ToggleStatus(db: Db, id: int, now: string): (r: Result<(Db, string), Failure>)
    requires "issues" in db.tables
    ensures r.Err? <==> id !in db.tables["issues"].rows
    ensures r.Err? ==> r.error == NotFound
    ensures r.Ok? ==>
              var (d, status) := r.value;
              var old_ := db.tables["issues"].rows[id];
              && (status == "CLOSED" <==> StatusOf(old_) == Some("OPEN"))
              && (status == "OPEN" <==> StatusOf(old_) != Some("OPEN"))
              && "issues" in d.tables && id in d.tables["issues"].rows
              && d.tables["issues"].rows[id] == old_["status" := Text(status)]["updated_at" := Text(now)]
              && (forall k :: k in db.tables["issues"].rows && k != id
                    ==> k in d.tables["issues"].rows && d.tables["issues"].rows[k] == db.tables["issues"].rows[k])
              && d.labels == db.labels && d.issueLabels == db.issueLabels
              && d.issueReactions == db.issueReactions
  {
    var t := db.tables["issues"];
    if id !in t.rows then Err(NotFound)
    else
      var status := if StatusOf(t.rows[id]) == Some("OPEN") then "CLOSED" else "OPEN";
      var row := t.rows[id]["status" := Text(status)]["updated_at" := Text(now)];
      Ok((db.(tables := db.tables["issues" := t.(rows := t.rows[id := row])]), status))
  }

  /** Toggling an OPEN or CLOSED issue twice gives its status back. */
  lemma ToggleStatusTwice(db: Db, id: int, now1: string, now2: string)
    requires "issues" in db.tables && id in db.tables["issues"].rows
    requires StatusOf(db.tables["issues"].rows[id]) in {Some("OPEN"), Some("CLOSED")}
    ensures var once := ToggleStatus(db, id, now1);
            && once.Ok?
            && var twice := ToggleStatus(once.value.0, id, now2);
            && twice.Ok?
            && twice.value.1 != once.value.1
            && StatusOf(twice.value.0.tables["issues"].rows[id]) == StatusOf(db.tables["issues"].rows[id])
  {
  }

  /** An issue's reaction toggle: remove the (issue, user, reaction) row
      when present, insert it otherwise, then bump the issue. Inserting
      for a missing issue breaks the foreign key. */
  function ToggleReaction(db: Db, issue: int, reaction: string, user: string, now: string): (r: Result<Db, Failure>)
    requires "issues" in db.tables
    ensures r.Err? <==> (issue, user, reaction) !in db.issueReactions && issue !in db.tables["issues"].rows
    ensures r.Ok? ==> ((issue, user, reaction) in r.value.issueReactions <==> (issue, user, reaction) !in db.issueReactions)
    ensures r.Ok? ==> forall k :: k != (issue, user, reaction) ==> (k in r.value.issueReactions <==> k in db.issueReactions)
    ensures r.Ok? ==> r.value.tables == Touch(db, "issues", issue, now).tables
    ensures r.Ok? ==> r.value.labels == db.labels && r.value.issueLabels == db.issueLabels
  {
    var key := (issue, user, reaction);
    if key in db.issueReactions then
      Ok(Touch(db.(issueReactions := db.issueReactions - {key}), "issues", issue, now))
    else if issue !in db.tables["issues"].rows then Err(ForeignKey)
    else
      Ok(Touch(db.(issueReactions := db.issueReactions + {key}), "issues", issue, now))
  }

  /** Toggling the same reaction twice restores the reaction rows. */
  lemma ToggleReactionTwice(db: Db, issue: int, reaction: string, user: string, now1: string, now2: string)
    requires "issues" in db.tables && issue in db.tables["issues"].rows
    ensures var once := ToggleReaction(db, issue, reaction, user, now1);
            && once.Ok?
            && "issues" in once.value.tables
            && var twice := ToggleReaction(once.value, issue, reaction, user, now2);
            && twice.Ok?
            && twice.value.issueReactions == db.issueReactions
  {
    var once := ToggleReaction(db, issue, reaction, user, now1);
    var twice := ToggleReaction(once.value, issue, reaction, user, now2);
    assert issue in once.value.tables["issues"].rows;
    assert twice.value.issueReactions == db.issueReactions;
  }

  /** `REACTION_OPTIONS`: thumbs up, party popper, red heart (with its
      variation selector), rocket, eyes, thumbs down. */
  const ReactionOptions: seq<string> :=
    ["\U{1F44D}", "\U{1F389}", "\U{2764}\U{FE0F}", "\U{1F680}", "\U{1F440}", "\U{1F44E}"]

  /** `_ensure_reaction_allowed`. */
  function EnsureReactionAllowed(reaction: string): (r: Result<Unit, Failure>)
    ensures r.Ok? <==> reaction in ReactionOptions
    ensures r.Err? ==> r.error == Unsupported(reaction)
  {
    if reaction in ReactionOptions then Ok(Unit) else Err(Unsupported(reaction))
  }

  /** The service's `toggle_issue_reaction`: the whitelist first, the
      repository only for an allowed reaction. */
  function ToggleIssueReaction(db: Db, issue: int, reaction: string, user: string, now: string): (r: Result<Db, Failure>)
    requires "issues" in db.tables
    ensures reaction !in ReactionOptions ==> r == Err(Unsupported(reaction))
    ensures reaction in ReactionOptions ==> r == ToggleReaction(db, issue, reaction, user, now)
  {
    match EnsureReactionAllowed(reaction)
    case Err(e) => Err(e)
    case Ok(_) => ToggleReaction(db, issue, reaction, user, now)
  }

  /** The service's `toggle_comment_reaction`: the whitelist first; the
      comment repository it then calls defines no `toggle_reaction`, so an
      allowed reaction raises AttributeError and nothing changes. */
  function ToggleCommentReaction(reaction: string): (r: Result<Unit, Failure>)
    ensures r.Err?
    ensures reaction !in ReactionOptions ==> r.error == Unsupported(reaction)
    ensures reaction in ReactionOptions ==> r.error == NoSuchRepositoryFunction
  {
    match EnsureReactionAllowed(reaction)
    case Err(e) => Err(e)
    case Ok(_) => Err(NoSuchRepositoryFunction)
  }

  /** `assignee or ""`. */
  function AssigneeText(assignee: Option<string>): (s: string)
    ensures assignee.Some? ==> s == assignee.value
    ensures assignee.None? ==> s == ""
  {
    assignee.GetOr("")
  }

  /** A nullable integer column. */
  function IntOrNull(v: Option<int>): (x: SqlValue)
    ensures v.None? <==> x == Null
    ensures v.Some? ==> x == Int(v.value)
  {
    if v.Some? then Int(v.value) else Null
  }

  /** A milestone reference the foreign key accepts: none, or an
      existing milestone. */
  predicate MilestoneExists(db: Db, milestone: Option<int>) {
    milestone.None? || ("milestones" in db.tables && milestone.value in db.tables["milestones"].rows)
  }

  /** The service's and the repository's `create_issue`: status OPEN, the
      assignee defaulting to "", both timestamps now; then the labels. */
  function CreateIssue(db: Db, title: string, body: string, createdBy: string, assignee: Option<string>,
                       labels: Option<seq<string>>, milestone: Option<int>, now: string): (r: Result<(Db, int), Failure>)
    requires "issues" in db.tables
    ensures r.Err? <==> !MilestoneExists(db, milestone)
    ensures r.Err? ==> r.error == ForeignKey
    ensures r.Ok? ==>
              var (d, id) := r.value;
              var rows := db.tables["issues"].rows;
              && id !in rows
              && "issues" in d.tables && id in d.tables["issues"].rows
              && d.tables["issues"].rows == rows[id := d.tables["issues"].rows[id]]
              && d.tables["issues"].rows[id] == map[
                   "title" := Text(title), "body" := Text(body), "status" := Text("OPEN"),
                   "created_by" := Text(createdBy), "assignee" := Text(AssigneeText(assignee)),
                   "milestone_id" := IntOrNull(milestone),
                   "created_at" := Text(now), "updated_at" := Text(now)]
              && LabelIdsOf(d, id) == IdsOf(d.labels, set n | n in Labels.NormalizeLabels(labels))
              && (forall p: (int, int) :: p.0 != id ==> (p in d.issueLabels <==> p in db.issueLabels))
  {
    if !MilestoneExists(db, milestone) then Err(ForeignKey)
    else
      var t := db.tables["issues"];
      var id := NextAutoId(t);
      var row := map[
        "title" := Text(title), "body" := Text(body), "status" := Text("OPEN"),
        "created_by" := Text(createdBy), "assignee" := Text(AssigneeText(assignee)),
        "milestone_id" := IntOrNull(milestone),
        "created_at" := Text(now), "updated_at" := Text(now)];
      var d := db.(tables := db.tables["issues" := Put(t, id, row)]);
      Ok((Labels.SetIssueLabelsPy(d, id, labels), id))
  }

  /** The repository's `update_issue`: title, body, assignee, milestone and
      `updated_at` are set on the row (no row, no change), then the labels
      are replaced. An UPDATE that matches no row checks no foreign key, so
      a dangling milestone only fails for an existing issue; label rows for
      a missing issue break the foreign key. */
  function UpdateIssue(db: Db, id: int, title: string, body: string, assignee: Option<string>,
                       labels: Option<seq<string>>, milestone: Option<int>, now: string): (r: Result<Db, Failure>)
    requires "issues" in db.tables
    ensures r.Err? <==> (id in db.tables["issues"].rows && !MilestoneExists(db, milestone))
                        || (id !in db.tables["issues"].rows && Labels.NormalizeLabels(labels) != [])
    ensures r.Err? ==> r.error == ForeignKey
    ensures r.Ok? ==>
              && "issues" in r.value.tables
              && r.value.tables["issues"].rows.Keys == db.tables["issues"].rows.Keys
              && (id in db.tables["issues"].rows ==>
                    r.value.tables["issues"].rows[id] == db.tables["issues"].rows[id][
                      "title" := Text(title)]["body" := Text(body)]["assignee" := Text(AssigneeText(assignee))][
                      "milestone_id" := IntOrNull(milestone)]["updated_at" := Text(now)])
              && LabelIdsOf(r.value, id) == IdsOf(r.value.labels, set n | n in Labels.NormalizeLabels(labels))
              && (forall p: (int, int) :: p.0 != id ==> (p in r.value.issueLabels <==> p in db.issueLabels))
  {
    var t := db.tables["issues"];
    if id in t.rows && !MilestoneExists(db, milestone) then Err(ForeignKey)
    else if id !in t.rows && Labels.NormalizeLabels(labels) != [] then Err(ForeignKey)
    else
      var d :=
        if id in t.rows then
          var row := t.rows[id]["title" := Text(title)]["body" := Text(body)][
            "assignee" := Text(AssigneeText(assignee))]["milestone_id" := IntOrNull(milestone)][
            "updated_at" := Text(now)];
          db.(tables := db.tables["issues" := t.(rows := t.rows[id := row])])
        else db;
      Ok(Labels.SetIssueLabelsPy(d, id, labels))
  }

  /** Labels are always normalised first, so an update passing no labels
      leaves the issue with none. */
  lemma UpdateWithoutLabelsClears(db: Db, id: int, title: string, body: string, assignee: Option<string>,
                                  milestone: Option<int>, now: string)
    requires "issues" in db.tables && (id in db.tables["issues"].rows ==> MilestoneExists(db, milestone))
    ensures var r := UpdateIssue(db, id, title, body, assignee, None, milestone, now);
            r.Ok? && LabelIdsOf(r.value, id) == {}
  {
  }

  // -------------------------------------------------------------------
  // comments
  // -------------------------------------------------------------------

  /** `add_comment`: a new comment row, and the issue's `updated_at`
      bumped. A missing issue breaks the foreign key. */
  function AddComment(db: Db, issue: int, body: string, createdBy: string, now: string): (r: Result<(Db, int), Failure>)
    requires "issues" in db.tables && "comments" in db.tables
    ensures r.Err? <==> issue !in db.tables["issues"].rows
    ensures r.Ok? ==>
              var (d, id) := r.value;
              && id !in db.tables["comments"].rows
              && "comments" in d.tables
              && d.tables["comments"].rows == db.tables["comments"].rows[id := map[
                   "issue_id" := Int(issue), "body" := Text(body),
                   "created_by" := Text(createdBy), "created_at" := Text(now)]]
              && "issues" in d.tables
              && d.tables["issues"] == Touch(db, "issues", issue, now).tables["issues"]
              && d.issueReactions == db.issueReactions && d.commentReactions == db.commentReactions
  {
    if issue !in db.tables["issues"].rows then Err(ForeignKey)
    else
      var t := db.tables["comments"];
      var id := NextAutoId(t);
      var row := map["issue_id" := Int(issue), "body" := Text(body), "created_by" := Text(createdBy), "created_at" := Text(now)];
      var d := db.(tables := db.tables["comments" := Put(t, id, row)]);
      Ok((Touch(d, "issues", issue, now), id))
  }

  /** `delete_comment` (and the service that returns its result): only the
      author may delete. The comment's reactions go with it (ON DELETE
      CASCADE) and its issue's `updated_at` is bumped. */
  function DeleteComment(db: Db, id: int, user: string, now: string): (r: (Db, bool))
    requires "comments" in db.tables
    ensures !r.1 <==> id !in db.tables["comments"].rows
                      || TextOf(db.tables["comments"].rows[id], "created_by") != Some(user)
    ensures !r.1 ==> r.0 == db
    ensures r.1 ==>
              && "comments" in r.0.tables
              && r.0.tables["comments"].rows == db.tables["comments"].rows - {id}
              && (forall k :: k in r.0.commentReactions <==> k in db.commentReactions && k.0 != id)
              && r.0.issueReactions == db.issueReactions && r.0.issueLabels == db.issueLabels
  {
    var t := db.tables["comments"];
    if id !in t.rows || TextOf(t.rows[id], "created_by") != Some(user) then (db, false)
    else
      var row := t.rows[id];
      var d := db.(tables := db.tables["comments" := t.(rows := t.rows - {id})],
                   commentReactions := set k | k in db.commentReactions && k.0 != id);
      match IssueOf(row)
      case Some(issue) =>
        assert Touch(d, "issues", issue, now).tables["comments"] == d.tables["comments"];
        (Touch(d, "issues", issue, now), true)
      case None => (d, true)
  }

  /** Deleting removes exactly the author's comment; any other user's
      attempt leaves everything as it was. */
  lemma OnlyTheAuthorDeletes(db: Db, id: int, author: string, other: string, now: string)
    requires "comments" in db.tables && id in db.tables["comments"].rows
    requires TextOf(db.tables["comments"].rows[id], "created_by") == Some(author) && other != author
    ensures DeleteComment(db, id, other, now) == (db, false)
    ensures DeleteComment(db, id, author, now).1
    ensures id !in DeleteComment(db, id, author, now).0.tables["comments"].rows
  {
  }

  /** `list_by_issue`: that issue's comments, oldest first. */
  function ListByIssue(db: Db, issue: int, scan: seq<int>): (r: seq<(int, Row)>)
    requires "comments" in db.tables && Query.IsScanOf(scan, db.tables["comments"])
    ensures forall i, j :: 0 <= i < j < |r| ==> Query.RowLe("created_at", false, r[i], r[j])
    ensures forall p: (int, Row) :: p in r <==> (p.0 in db.tables["comments"].rows
                                                && p.1 == db.tables["comments"].rows[p.0]
                                                && IssueOf(p.1) == Some(issue))
    ensures Sorting.Distinct(Query.Keys(r))
  {
    var keep := (id, row) => IssueOf(row) == Some(issue);
    Query.ListingKeysDistinct(db.tables["comments"], scan, keep, "created_at", false);
    Query.OrderBy(Query.Where(Query.Scan(db.tables["comments"], scan), keep), "created_at", false)
  }
}
