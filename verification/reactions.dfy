/** The Rust reaction commands (`src-tauri/src/commands/reactions.rs`).
    The Rust connection does not turn foreign keys on, so reacting to a
    missing issue or comment is accepted by the database. */
module Reactions {
  import opened Wrappers
  import opened Database
  import Text
  import Sorting

  /** One summary line: a reaction, how many users chose it, whether the
      current user did, and who. */
  datatype Entry = Entry(reaction: string, count: nat, reacted: bool, users: seq<string>)

  /** The users column after `GROUP_CONCAT(reacted_by, ',')`: an empty
      string gives no users, anything else is split at ','. */
  function UsersList(concat: string): (users: seq<string>)
    ensures concat == "" ==> users == []
    ensures concat != "" ==> users == Text.Split(concat, ',') && |users| >= 1
  {
    if concat == "" then [] else Text.Split(concat, ',')
  }

  /** Names that survive the comma round trip: non-empty, no comma. */
  predicate PlainName(u: string) {
    u != "" && ',' !in u
  }

  /** The users column gives back the reacting users whenever their names
      are plain. */
  lemma UsersRoundTrip(users: seq<string>)
    requires forall i :: 0 <= i < |users| ==> PlainName(users[i])
    ensures UsersList(if users == [] then "" else Text.JoinWith(users, ',')) == users
  {
    if users != [] {
      Text.SplitJoin(users, ',');
      assert |Text.JoinWith(users, ',')| >= |users[0]| by { JoinLength(users); }
    }
  }

  lemma {:induction false} JoinLength(parts: seq<string>)
    requires |parts| >= 1
    ensures |Text.JoinWith(parts, ',')| >= |parts[0]|
  {
    if |parts| > 1 {
      JoinLength(parts[1..]);
    }
  }

  /** The users who gave `reaction` to `target`. */
  function Reactors(keys: set<ReactionKey>, target: int, reaction: string): (us: set<string>)
    ensures forall u :: u in us <==> (target, u, reaction) in keys
  {
    set k | k in keys && k.0 == target && k.2 == reaction :: k.1
  }

  /** `order` lists the set once each: the order GROUP_CONCAT happens to
      use. */
  predicate Enumerates(order: seq<string>, us: set<string>) {
    Sorting.Distinct(order) && (forall u :: u in order ==> u in us) && (forall u :: u in us ==> u in order)
  }

  /** The summary line of one (target, reaction) group. */
  function Summarize(keys: set<ReactionKey>, target: int, reaction: string, current: string, order: seq<string>): (e: Entry)
    requires Enumerates(order, Reactors(keys, target, reaction))
    ensures e.reaction == reaction
    ensures e.count == |Reactors(keys, target, reaction)|
    ensures e.reacted <==> (target, current, reaction) in keys
    ensures (forall i :: 0 <= i < |order| ==> PlainName(order[i])) ==> e.users == order
  {
    DistinctSetSize(order, Reactors(keys, target, reaction));
    var users := UsersList(if order == [] then "" else Text.JoinWith(order, ','));
    assert (forall i :: 0 <= i < |order| ==> PlainName(order[i])) ==> users == order by {
      if forall i :: 0 <= i < |order| ==> PlainName(order[i]) { UsersRoundTrip(order); }
    }
    Entry(reaction, |order|, current in order, users)
  }

  /** A sequence without repeats that enumerates a set has its size. */
  lemma {:induction false} DistinctSetSize(order: seq<string>, us: set<string>)
    requires Enumerates(order, us)
    ensures |order| == |us|
    decreases |order|
  {
    if |order| > 0 {
      var x := order[0];
      assert x in us;
      var rest := order[1..];
      assert Sorting.Distinct(rest);
      forall u | u in rest ensures u in us - {x} {
        var i :| 0 <= i < |rest| && rest[i] == u;
        assert order[i + 1] == u && order[0] == x;
      }
      forall u | u in us - {x} ensures u in rest {
        var i :| 0 <= i < |order| && order[i] == u;
        assert i != 0;
        assert rest[i - 1] == u;
      }
      DistinctSetSize(rest, us - {x});
    }
  }

  /** `toggle_issue_reaction`: flip the row, bump the issue. */
  function ToggleIssueReaction(db: Db, issue: int, reaction: string, user: string, now: string): (r: Db)
    ensures (issue, user, reaction) in r.issueReactions <==> (issue, user, reaction) !in db.issueReactions
    ensures forall k :: k != (issue, user, reaction) ==> (k in r.issueReactions <==> k in db.issueReactions)
    ensures r.tables == Touch(db, "issues", issue, now).tables
    ensures r.commentReactions == db.commentReactions && r.labels == db.labels && r.issueLabels == db.issueLabels
  {
    var key := (issue, user, reaction);
    var flipped := if key in db.issueReactions then db.issueReactions - {key} else db.issueReactions + {key};
    Touch(db.(issueReactions := flipped), "issues", issue, now)
  }

  lemma ToggleIssueReactionTwice(db: Db, issue: int, reaction: string, user: string, now1: string, now2: string)
    ensures ToggleIssueReaction(ToggleIssueReaction(db, issue, reaction, user, now1), issue, reaction, user, now2).issueReactions
            == db.issueReactions
  {
  }

  /** `toggle_comment_reaction`: flip the row, then look up the comment's
      issue and bump it. A missing comment is an error reported after the
      flip, which stays (there is no transaction). */
  function ToggleCommentReaction(db: Db, comment: int, reaction: string, user: string, now: string): (r: (Db, Result<Unit, string>))
    requires "comments" in db.tables
    ensures (comment, user, reaction) in r.0.commentReactions <==> (comment, user, reaction) !in db.commentReactions
    ensures forall k :: k != (comment, user, reaction) ==> (k in r.0.commentReactions <==> k in db.commentReactions)
    ensures r.1.Err? <==> comment !in db.tables["comments"].rows || IssueOf(db.tables["comments"].rows[comment]).None?
    ensures r.1.Err? ==> r.0.tables == db.tables
    ensures r.1.Ok? ==> r.0.tables == Touch(db, "issues", IssueOf(db.tables["comments"].rows[comment]).value, now).tables
    ensures r.0.issueReactions == db.issueReactions && r.0.labels == db.labels
  {
    var key := (comment, user, reaction);
    var flipped := if key in db.commentReactions then db.commentReactions - {key} else db.commentReactions + {key};
    var d := db.(commentReactions := flipped);
    var t := db.tables["comments"];
    if comment !in t.rows || IssueOf(t.rows[comment]).None? then (d, Err("Query returned no rows"))
    else (Touch(d, "issues", IssueOf(t.rows[comment]).value, now), Ok(Unit))
  }

  /** The comments of an issue. */
  function CommentsOf(db: Db, issue: int): (cs: set<int>)
    requires "comments" in db.tables
    ensures forall c :: c in cs <==> c in db.tables["comments"].rows && IssueOf(db.tables["comments"].rows[c]) == Some(issue)
  {
    set c | c in db.tables["comments"].rows && IssueOf(db.tables["comments"].rows[c]) == Some(issue)
  }

  /** `get_comment_reactions` grouped by comment: each comment of the
      issue with at least one reaction, mapped to the reactions it has. */
  function CommentGroups(db: Db, issue: int): (groups: map<int, set<string>>)
    requires "comments" in db.tables
    ensures forall c :: c in groups <==> c in CommentsOf(db, issue) && exists k :: k in db.commentReactions && k.0 == c
    ensures forall c, x :: c in groups ==> (x in groups[c] <==> exists u :: (c, u, x) in db.commentReactions)
  {
    var cs := CommentsOf(db, issue);
    map c | c in cs && (exists k :: k in db.commentReactions && k.0 == c) ::
      set k | k in db.commentReactions && k.0 == c :: k.2
  }
}
