/** Label text handling and the issue-label relation: the input parser of
    the Python UI (`app/ui/helpers.py`), the Python repository
    (`app/database/repositories/labels.py`, `issues.py`) and the Rust
    commands (`src-tauri/src/commands/labels.rs`). */
module Labels {
  import opened Wrappers
  import opened Database
  import Text
  import Sorting

  /** Python `str.strip()`. */
  function PyStrip(s: string): string {
    Text.Strip(s, Text.IsPySpace)
  }

  /** A label as stored: stripped and non-empty. */
  predicate IsCleanName(s: string) {
    s != "" && PyStrip(s) == s
  }

  /** The position of the first raw entry that strips to `x`, `|raws|`
      when there is none. */
  function FirstIndex(raws: seq<string>, x: string): (k: nat)
    ensures k <= |raws|
    ensures k < |raws| ==> PyStrip(raws[k]) == x
    ensures forall i :: 0 <= i < k ==> PyStrip(raws[i]) != x
  {
    if |raws| == 0 || PyStrip(raws[0]) == x then 0
    else 1 + FirstIndex(raws[1..], x)
  }

  /** Every raw entry, stripped. */
  function Stripped(raws: seq<string>): (r: set<string>)
    ensures forall i :: 0 <= i < |raws| ==> PyStrip(raws[i]) in r
  {
    set i | 0 <= i < |raws| :: PyStrip(raws[i])
  }

  lemma StrippedCons(raws: seq<string>)
    requires |raws| > 0
    ensures Stripped(raws) == {PyStrip(raws[0])} + Stripped(raws[1..])
  {
    forall x | x in Stripped(raws) ensures x in {PyStrip(raws[0])} + Stripped(raws[1..]) {
      var i :| 0 <= i < |raws| && PyStrip(raws[i]) == x;
      if i > 0 { assert raws[1..][i - 1] == raws[i]; }
    }
  }

  /** The loop of `normalize_labels` with the names already `seen`: strip
      each entry, drop empty and repeated ones, keep the first occurrence. */
  function Dedup(raws: seq<string>, seen: set<string>): (r: seq<string>)
    ensures forall x :: x in r ==> IsCleanName(x)
    ensures forall x :: x in r <==> x != "" && x !in seen && x in Stripped(raws)
    ensures Sorting.Distinct(r)
    decreases |raws|
  {
    if |raws| == 0 then []
    else
      var name := PyStrip(raws[0]);
      if name == "" || name in seen then
        var rest := Dedup(raws[1..], seen);
        DedupMembers(raws, seen, rest, rest);
        rest
      else
        var rest := Dedup(raws[1..], seen + {name});
        Text.StripIdempotent(raws[0], Text.IsPySpace);
        FreshFirst(name, rest);
        DedupMembers(raws, seen, rest, [name] + rest);
        [name] + rest
  }

  /** One step of `Dedup`'s loop keeps exactly the new, non-empty names. */
  lemma DedupMembers(raws: seq<string>, seen: set<string>, rest: seq<string>, r: seq<string>)
    requires |raws| > 0
    requires var name := PyStrip(raws[0]);
             if name == "" || name in seen then
               r == rest && forall x :: x in rest <==> x != "" && x !in seen && x in Stripped(raws[1..])
             else
               (forall x :: x in r <==> x == name || x in rest)
               && forall x :: x in rest <==> x != "" && x !in seen + {name} && x in Stripped(raws[1..])
    ensures forall x :: x in r <==> x != "" && x !in seen && x in Stripped(raws)
  {
    StrippedCons(raws);
  }

  /** A name missing from a duplicate-free list can go in front. */
  lemma FreshFirst(name: string, rest: seq<string>)
    requires name !in rest && Sorting.Distinct(rest)
    ensures Sorting.Distinct([name] + rest)
    ensures forall x :: x in [name] + rest <==> x == name || x in rest
  {
    var r := [name] + rest;
    forall i, j | 0 <= i < j < |r| ensures r[i] != r[j] {
      assert r[j] == rest[j - 1];
      if i > 0 { assert r[i] == rest[i - 1]; } else { assert rest[j - 1] in rest; }
    }
  }

  /** `normalize_labels`: None and the empty list give the empty list. */
  function NormalizeLabels(labels: Option<seq<string>>): (r: seq<string>)
    ensures labels.None? || labels.value == [] ==> r == []
    ensures forall x :: x in r ==> IsCleanName(x)
    ensures Sorting.Distinct(r)
    ensures labels.Some? ==> forall x :: x in r <==> x != "" && x in Stripped(labels.value)
  {
    match labels
    case None => []
    case Some(raws) => Dedup(raws, {})
  }

  lemma FirstIndexStep(raws: seq<string>, x: string)
    requires |raws| > 0 && PyStrip(raws[0]) != x
    ensures FirstIndex(raws, x) == 1 + FirstIndex(raws[1..], x)
  {
  }

  /** The names of `r` appear in the order of their first raw entry. */
  predicate InFirstOccurrenceOrder(r: seq<string>, raws: seq<string>) {
    forall i, j :: 0 <= i < j < |r| ==> FirstIndex(raws, r[i]) < FirstIndex(raws, r[j])
  }

  /** Dropping the first raw entry shifts every other name's position. */
  lemma OrderTail(r: seq<string>, raws: seq<string>)
    requires |raws| > 0 && PyStrip(raws[0]) !in r
    requires InFirstOccurrenceOrder(r, raws[1..])
    ensures InFirstOccurrenceOrder(r, raws)
  {
    forall i, j | 0 <= i < j < |r| ensures FirstIndex(raws, r[i]) < FirstIndex(raws, r[j]) {
      FirstIndexStep(raws, r[i]);
      FirstIndexStep(raws, r[j]);
    }
  }

  /** The first raw entry's name goes first. */
  lemma OrderCons(name: string, r: seq<string>, raws: seq<string>)
    requires |raws| > 0 && PyStrip(raws[0]) == name && name !in r
    requires InFirstOccurrenceOrder(r, raws[1..])
    ensures InFirstOccurrenceOrder([name] + r, raws)
  {
    OrderTail(r, raws);
    var r' := [name] + r;
    assert FirstIndex(raws, name) == 0;
    forall i, j | 0 <= i < j < |r'| ensures FirstIndex(raws, r'[i]) < FirstIndex(raws, r'[j]) {
      assert r'[j] == r[j - 1];
      FirstIndexStep(raws, r[j - 1]);
      if i > 0 {
        assert r'[i] == r[i - 1];
      }
    }
  }

  /** Output order is first-occurrence order. */
  lemma {:induction false} DedupKeepsFirstOccurrenceOrder(raws: seq<string>, seen: set<string>)
    ensures InFirstOccurrenceOrder(Dedup(raws, seen), raws)
    decreases |raws|
  {
    if |raws| > 0 {
      var name := PyStrip(raws[0]);
      if name == "" || name in seen {
        DedupKeepsFirstOccurrenceOrder(raws[1..], seen);
        OrderTail(Dedup(raws[1..], seen), raws);
      } else {
        DedupKeepsFirstOccurrenceOrder(raws[1..], seen + {name});
        OrderCons(name, Dedup(raws[1..], seen + {name}), raws);
      }
    }
  }

  /** Clean, distinct names normalise to themselves. */
  lemma {:induction false} DedupOfClean(xs: seq<string>, seen: set<string>)
    requires forall x :: x in xs ==> IsCleanName(x) && x !in seen
    requires Sorting.Distinct(xs)
    ensures Dedup(xs, seen) == xs
    decreases |xs|
  {
    if |xs| > 0 {
      assert xs[0] in xs;
      DistinctTail(xs);
      DedupOfClean(xs[1..], seen + {xs[0]});
      assert Dedup(xs, seen) == [xs[0]] + Dedup(xs[1..], seen + {xs[0]});
    }
  }

  /** The tail of a duplicate-free list is duplicate-free and misses its
      head. */
  lemma DistinctTail(xs: seq<string>)
    requires |xs| > 0 && Sorting.Distinct(xs)
    ensures Sorting.Distinct(xs[1..])
    ensures forall x :: x in xs[1..] ==> x in xs && x != xs[0]
  {
    forall x | x in xs[1..] ensures x in xs && x != xs[0] {
      var k :| 0 <= k < |xs[1..]| && xs[1..][k] == x;
      assert xs[k + 1] == x;
    }
    forall i, j | 0 <= i < j < |xs[1..]| ensures xs[1..][i] != xs[1..][j] {
      assert xs[1..][i] == xs[i + 1] && xs[1..][j] == xs[j + 1];
    }
  }

  /** `normalize_labels` is idempotent. */
  lemma NormalizeIdempotent(labels: Option<seq<string>>)
    ensures NormalizeLabels(Some(NormalizeLabels(labels))) == NormalizeLabels(labels)
  {
    DedupOfClean(NormalizeLabels(labels), {});
  }

  /** The string the second `replace` of `parse_labels` looks for:
      U+201E U+00C4 U+00C5, which is what the UTF-8 bytes of the ideographic
      comma U+3001 (E3 80 81) read as when taken for Mac OS Roman. */
  const MisreadComma: string := "\U{201E}\U{00C4}\U{00C5}"

  /** `text.replace("\n", ",").replace(MisreadComma, ",")`. */
  function Raw(t: string): string {
    Text.Replace(Text.Replace(t, "\n", ","), MisreadComma, ",")
  }

  /** `parse_labels` as written: None and "" give the empty list; otherwise
      the parts between commas of the raw text, normalised. */
  function ParseLabels(text: Option<string>): (r: seq<string>)
    ensures text.None? || text.value == "" ==> r == []
    ensures forall x :: x in r ==> IsCleanName(x) && ',' !in x
    ensures Sorting.Distinct(r)
    ensures text.Some? ==> forall x :: x in r <==> x != "" && x in Stripped(Text.Split(Raw(text.value), ','))
  {
    match text
    case None => []
    case Some(t) =>
      if t == "" then
        assert Raw(t) == "" && Text.Split(Raw(t), ',') == [""];
        assert PyStrip("") == "";
        assert forall x :: x in Stripped([""]) ==> x == "";
        []
      else
        var parts := Text.Split(Raw(t), ',');
        var r := NormalizeLabels(Some(parts));
        forall x | x in r ensures ',' !in x {
          var i :| 0 <= i < |parts| && PyStrip(parts[i]) == x;
          assert parts[i] in parts;
        }
        r
  }

  /** A character that neither `replace` nor the split reacts to. */
  predicate Inert(c: char) {
    c != ',' && c != '\n' && c != MisreadComma[0]
  }

  /** The raw text of a string free of separators is the string itself. */
  lemma RawInert(s: string)
    requires forall k :: 0 <= k < |s| ==> Inert(s[k])
    ensures Raw(s) == s
  {
    Text.ReplaceAbsent(s, "\n", ",");
    Text.ReplaceAbsent(s, MisreadComma, ",");
  }

  /** Two clean, distinct names parse to themselves. */
  lemma TwoClean(a: string, b: string)
    requires IsCleanName(a) && IsCleanName(b) && a != b
    ensures NormalizeLabels(Some([a, b])) == [a, b]
  {
    DedupOfClean([a, b], {});
  }

  /** As written, a comma or a newline between two different clean names
      parses to those two names, in order. */
  lemma TwoLabels(a: string, x: char, b: string)
    requires IsCleanName(a) && IsCleanName(b) && a != b
    requires forall k :: 0 <= k < |a| ==> Inert(a[k])
    requires forall k :: 0 <= k < |b| ==> Inert(b[k])
    requires x == ',' || x == '\n'
    ensures ParseLabels(Some(a + [x] + b)) == [a, b]
  {
    var s := a + [x] + b;
    var c := a + [','] + b;
    if x == '\n' {
      Text.ReplaceAt(a, b, "\n", ",");
      Text.ReplaceAbsent(b, "\n", ",");
    } else {
      Text.ReplaceAbsent(s, "\n", ",");
    }
    assert Text.Replace(s, "\n", ",") == c;
    Text.ReplaceAbsent(c, MisreadComma, ",");
    Text.SplitNone(b, ',');
    Text.SplitCons(a, b, ',');
    TwoClean(a, b);
  }

  /** As written, the misread comma also separates two names. */
  lemma MisreadCommaSplits(a: string, b: string)
    requires IsCleanName(a) && IsCleanName(b) && a != b
    requires forall k :: 0 <= k < |a| ==> Inert(a[k])
    requires forall k :: 0 <= k < |b| ==> Inert(b[k])
    ensures ParseLabels(Some(a + MisreadComma + b)) == [a, b]
  {
    var s := a + MisreadComma + b;
    Text.ReplaceAbsent(s, "\n", ",");
    Text.ReplaceAt(a, b, MisreadComma, ",");
    Text.ReplaceAbsent(b, MisreadComma, ",");
    assert Raw(s) == a + [','] + b;
    Text.SplitNone(b, ',');
    Text.SplitCons(a, b, ',');
    TwoClean(a, b);
  }

  /** As written, the ideographic comma separates nothing: two names around
      it come back as one label. */
  lemma IdeographicCommaKept(a: string, b: string)
    requires IsCleanName(a) && IsCleanName(b)
    requires forall k :: 0 <= k < |a| ==> Inert(a[k])
    requires forall k :: 0 <= k < |b| ==> Inert(b[k])
    ensures ParseLabels(Some(a + "\U{3001}" + b)) == [a + "\U{3001}" + b]
  {
    var s := a + "\U{3001}" + b;
    InertJoin(a, b);
    RawInert(s);
    Text.SplitNone(s, ',');
    CleanJoin(a, b);
    SingleClean(s);
  }

  /** Two inert strings around '、' make an inert string. */
  lemma InertJoin(a: string, b: string)
    requires forall k :: 0 <= k < |a| ==> Inert(a[k])
    requires forall k :: 0 <= k < |b| ==> Inert(b[k])
    ensures forall k :: 0 <= k < |a + "\U{3001}" + b| ==> Inert((a + "\U{3001}" + b)[k])
  {
    var s := a + "\U{3001}" + b;
    forall k | 0 <= k < |s| ensures Inert(s[k]) {
      if k < |a| { assert s[k] == a[k]; }
      else if k > |a| { assert s[k] == b[k - |a| - 1]; }
    }
  }

  /** Two clean names around '、' make a clean name. */
  lemma CleanJoin(a: string, b: string)
    requires IsCleanName(a) && IsCleanName(b)
    ensures IsCleanName(a + "\U{3001}" + b)
  {
    var s := a + "\U{3001}" + b;
    assert s[0] == a[0] && s[|s| - 1] == b[|b| - 1];
  }

  /** A single clean name parses to itself. */
  lemma SingleClean(s: string)
    requires IsCleanName(s) && Raw(s) == s && Text.Split(s, ',') == [s]
    ensures ParseLabels(Some(s)) == [s]
  {
    DedupOfClean([s], {});
  }

  /** `parse_labels("a、b")` is the single label "a、b". */
  lemma IdeographicCommaExample()
    ensures ParseLabels(Some("a\U{3001}b")) == ["a\U{3001}b"]
  {
    ExampleNames();
    IdeographicCommaKept("a", "b");
    assert "a" + "\U{3001}" + "b" == "a\U{3001}b";
  }

  /** "a" and "b" are clean and inert. */
  lemma ExampleNames()
    ensures IsCleanName("a") && IsCleanName("b")
    ensures forall k :: 0 <= k < |"a"| ==> Inert("a"[k])
    ensures forall k :: 0 <= k < |"b"| ==> Inert("b"[k])
  {
    assert PyStrip("a") == "a" && PyStrip("b") == "b";
  }

  /** The separators `parse_labels` evidently means: comma, newline and the
      ideographic comma. */
  predicate IsLabelSeparator(c: char) {
    c == ',' || c == '\n' || c == '\U{3001}'
  }

  /** `parse_labels` as intended: the ideographic comma splits like ','. */
  function ParseLabelsIntended(text: Option<string>): (r: seq<string>)
    ensures text.None? || text.value == "" ==> r == []
    ensures forall x :: x in r ==> IsCleanName(x) && forall c :: c in x ==> !IsLabelSeparator(c)
    ensures Sorting.Distinct(r)
    ensures text.Some? ==> forall x :: x in r <==> x != "" && x in Stripped(Text.SplitWhere(text.value, IsLabelSeparator))
  {
    match text
    case None => []
    case Some(t) =>
      if t == "" then
        Text.SplitWhereNone(t, IsLabelSeparator);
        assert Dedup([""], {}) == Dedup([], {});
        []
      else
        var parts := Text.SplitWhere(t, IsLabelSeparator);
        var r := NormalizeLabels(Some(parts));
        forall x | x in r ensures forall c :: c in x ==> !IsLabelSeparator(c) {
          var i :| 0 <= i < |parts| && PyStrip(parts[i]) == x;
          assert parts[i] in parts;
        }
        r
  }

  /** As intended, two different clean names around any one separator
      parse to those two names, in order. */
  lemma TwoLabelsIntended(a: string, x: char, b: string)
    requires IsCleanName(a) && IsCleanName(b) && a != b
    requires forall k :: 0 <= k < |a| ==> !IsLabelSeparator(a[k])
    requires forall k :: 0 <= k < |b| ==> !IsLabelSeparator(b[k])
    requires IsLabelSeparator(x)
    ensures ParseLabelsIntended(Some(a + [x] + b)) == [a, b]
  {
    Text.SplitWhereNone(b, IsLabelSeparator);
    Text.SplitWhereCons(a, x, b, IsLabelSeparator);
    assert Text.SplitWhere(a + [x] + b, IsLabelSeparator) == [a, b];
    TwoClean(a, b);
  }

  // -------------------------------------------------------------------
  // the issue-label relation
  // -------------------------------------------------------------------

  /** `ensure_labels`: create the missing names, return one id per name. */
  function EnsureLabels(db: Db, names: seq<string>): (r: (Db, seq<int>))
    ensures |r.1| == |names|
    ensures forall i :: 0 <= i < |names| ==> names[i] in r.0.labels && r.0.labels[names[i]] == r.1[i]
    ensures forall n :: n in db.labels ==> n in r.0.labels && r.0.labels[n] == db.labels[n]
    ensures r.0.labels.Keys == db.labels.Keys + set i | 0 <= i < |names| :: names[i]
    ensures r.0.tables == db.tables && r.0.issueLabels == db.issueLabels
    ensures r.0.issueReactions == db.issueReactions && r.0.commentReactions == db.commentReactions
    ensures LabelIdsUnique(db) ==> LabelIdsUnique(r.0)
    decreases |names|
  {
    if |names| == 0 then (db, [])
    else
      var (d, id) := EnsureLabel(db, names[0]);
      EnsureLabelKeeps(db, names[0]);
      var (d', ids) := EnsureLabels(d, names[1..]);
      NamesCons(names);
      (d', [id] + ids)
  }

  lemma NamesCons(names: seq<string>)
    requires |names| > 0
    ensures forall i :: 1 <= i < |names| ==> names[i] == names[1..][i - 1]
    ensures (set i | 0 <= i < |names| :: names[i]) == {names[0]} + set i | 0 <= i < |names[1..]| :: names[1..][i]
  {
    assert forall i :: 1 <= i < |names| ==> names[i] == names[1..][i - 1];
    var all := set i | 0 <= i < |names| :: names[i];
    var tail := set i | 0 <= i < |names[1..]| :: names[1..][i];
    forall x | x in all ensures x in {names[0]} + tail {
      var i :| 0 <= i < |names| && names[i] == x;
      if i > 0 { assert names[1..][i - 1] == x; }
    }
    forall x | x in tail ensures x in all {
      var i :| 0 <= i < |names[1..]| && names[1..][i] == x;
      assert names[i + 1] == x;
    }
  }

  /** Replace an issue's labels by the ids given. */
  function ReplaceIssueLabels(pairs: set<(int, int)>, issue: int, ids: set<int>): (r: set<(int, int)>)
    ensures forall l :: (issue, l) in r <==> l in ids
    ensures forall p: (int, int) :: p.0 != issue ==> (p in r <==> p in pairs)
  {
    (set p | p in pairs && p.0 != issue) + (set l | l in ids :: (issue, l))
  }

  /** The ids `ensure_labels` returns are exactly the ids of the names. */
  lemma EnsuredIds(db: Db, names: seq<string>)
    ensures var (d, ids) := EnsureLabels(db, names);
            (set i | 0 <= i < |ids| :: ids[i]) == IdsOf(d.labels, set n | n in names)
  {
    var (d, ids) := EnsureLabels(db, names);
    var idSet := set i | 0 <= i < |ids| :: ids[i];
    var want := IdsOf(d.labels, set n | n in names);
    forall l | l in want ensures l in idSet {
      var n :| n in names && n in d.labels && d.labels[n] == l;
      var i :| 0 <= i < |names| && names[i] == n;
      assert ids[i] == l;
    }
  }

  /** Delete the issue's label rows, ensure every name exists, and insert
      one row per name: the steps both builds share. */
  function Relabel(db: Db, issue: int, names: seq<string>): (r: Db)
    ensures forall n :: n in names ==> n in r.labels
    ensures LabelIdsOf(r, issue) == IdsOf(r.labels, set n | n in names)
    ensures forall p: (int, int) :: p.0 != issue ==> (p in r.issueLabels <==> p in db.issueLabels)
    ensures forall n :: n in db.labels ==> n in r.labels && r.labels[n] == db.labels[n]
    ensures r.labels.Keys == db.labels.Keys + set n | n in names
    ensures r.tables == db.tables
    ensures r.issueReactions == db.issueReactions && r.commentReactions == db.commentReactions
    ensures LabelIdsUnique(db) ==> LabelIdsUnique(r)
  {
    var (d, ids) := EnsureLabels(db, names);
    EnsuredIds(db, names);
    assert (set n | n in names) == set i | 0 <= i < |names| :: names[i];
    d.(issueLabels := ReplaceIssueLabels(d.issueLabels, issue, set i | 0 <= i < |ids| :: ids[i]))
  }

  /** `_set_issue_labels`: the old rows go; when normalisation leaves no
      name nothing more happens, otherwise the names are ensured and
      attached. */
  function SetIssueLabelsPy(db: Db, issue: int, labels: Option<seq<string>>): (r: Db)
    ensures forall n :: n in r.labels <==> n in db.labels || n in NormalizeLabels(labels)
    ensures forall n :: n in db.labels ==> n in r.labels && r.labels[n] == db.labels[n]
    ensures LabelIdsOf(r, issue) == IdsOf(r.labels, set n | n in NormalizeLabels(labels))
    ensures forall p: (int, int) :: p.0 != issue ==> (p in r.issueLabels <==> p in db.issueLabels)
    ensures r.tables == db.tables
  {
    var names := NormalizeLabels(labels);
    if names == [] then db.(issueLabels := ReplaceIssueLabels(db.issueLabels, issue, {}))
    else Relabel(db, issue, names)
  }

  /** `create_issue` and `update_issue` always normalise first, so passing
      no labels clears them. */
  lemma NoLabelsClears(db: Db, issue: int)
    ensures LabelIdsOf(SetIssueLabelsPy(db, issue, None), issue) == {}
  {
  }

  /** The Rust normalisation: trimmed, non-empty, collected into a set. */
  function RustNormalize(labels: seq<string>): (names: set<string>)
    ensures forall i :: 0 <= i < |labels| && Text.Strip(labels[i], Text.IsRustSpace) != ""
                        ==> Text.Strip(labels[i], Text.IsRustSpace) in names
    ensures forall n :: n in names ==> n != "" && Text.Strip(n, Text.IsRustSpace) == n
  {
    var names := set i | 0 <= i < |labels| && Text.Strip(labels[i], Text.IsRustSpace) != "" :: Text.Strip(labels[i], Text.IsRustSpace);
    forall n | n in names ensures Text.Strip(n, Text.IsRustSpace) == n {
      var i :| 0 <= i < |labels| && Text.Strip(labels[i], Text.IsRustSpace) == n;
      Text.StripIdempotent(labels[i], Text.IsRustSpace);
    }
    names
  }

  /** `set_issue_labels` (Rust). `order` is the hash set's iteration order,
      which decides the ids new labels receive. */
  function SetIssueLabelsRust(db: Db, issue: int, labels: seq<string>, order: seq<string>, now: string): (r: Db)
    requires forall n :: n in order <==> n in RustNormalize(labels)
    ensures forall n :: n in r.labels <==> n in db.labels || n in RustNormalize(labels)
    ensures forall n :: n in db.labels ==> n in r.labels && r.labels[n] == db.labels[n]
    ensures LabelIdsOf(r, issue) == IdsOf(r.labels, RustNormalize(labels))
    ensures forall p: (int, int) :: p.0 != issue ==> (p in r.issueLabels <==> p in db.issueLabels)
    ensures r.tables == Touch(db, "issues", issue, now).tables
  {
    var d := Relabel(db, issue, order);
    SameNames(order, RustNormalize(labels));
    TouchKeepsLabels(d, issue, now);
    TouchReadsTables(d, db, "issues", issue, now);
    Touch(d, "issues", issue, now)
  }

  lemma SameNames(order: seq<string>, names: set<string>)
    requires forall n :: n in order <==> n in names
    ensures (set n | n in order) == names
  {
  }

  /** `Touch` leaves the labels and their links alone. */
  lemma TouchKeepsLabels(d: Db, issue: int, now: string)
    ensures Touch(d, "issues", issue, now).labels == d.labels
    ensures Touch(d, "issues", issue, now).issueLabels == d.issueLabels
    ensures LabelIdsOf(Touch(d, "issues", issue, now), issue) == LabelIdsOf(d, issue)
  {
  }

  /** The names of the labels attached to an issue (a pair whose label row
      is missing drops out of the join). */
  function NamesOf(db: Db, issue: int): (names: set<string>)
    ensures forall n :: n in names <==> n in db.labels && (issue, db.labels[n]) in db.issueLabels
  {
    set n | n in db.labels && (issue, db.labels[n]) in db.issueLabels
  }

  /** The least of a non-empty set of names. */
  function Least(names: set<string>): (m: string)
    requires names != {}
    ensures m in names && forall n :: n in names ==> Text.StrLe(m, n)
  {
    LeastExists(names);
    forall a, b | a in names && b in names && (forall n :: n in names ==> Text.StrLe(a, n))
                  && (forall n :: n in names ==> Text.StrLe(b, n))
      ensures a == b
    {
      Text.StrLeAntisymmetric(a, b);
    }
    var m :| m in names && forall n :: n in names ==> Text.StrLe(m, n);
    m
  }

  lemma {:induction false} LeastExists(names: set<string>)
    requires names != {}
    ensures exists m :: m in names && forall n :: n in names ==> Text.StrLe(m, n)
    decreases |names|
  {
    var y :| y in names;
    if names != {y} {
      LeastExists(names - {y});
      var m :| m in names - {y} && forall n :: n in names - {y} ==> Text.StrLe(m, n);
      Text.StrLeTotal(y, m);
      var low := if Text.StrLe(y, m) then y else m;
      forall n | n in names ensures Text.StrLe(low, n) {
        LowerStep(names, y, m, low, n);
      }
      assert low in names;
    } else {
      Text.StrLtIrreflexive(y);
    }
  }

  /** One step of `LeastExists`: the smaller of `y` and the least of the
      other names is below every name. */
  lemma LowerStep(names: set<string>, y: string, m: string, low: string, n: string)
    requires n in names && m in names - {y}
    requires forall k :: k in names - {y} ==> Text.StrLe(m, k)
    requires low == (if Text.StrLe(y, m) then y else m)
    requires Text.StrLe(y, m) || Text.StrLe(m, y)
    ensures Text.StrLe(low, n)
  {
    if n == y {
      Text.StrLtIrreflexive(y);
    } else {
      assert n in names - {y};
      if low == y {
        Text.StrLeTransitive(y, m, n);
      }
    }
  }

  /** A set of names in ascending order (`ORDER BY name`). */
  function Ascending(names: set<string>): (r: seq<string>)
    ensures forall n :: n in r <==> n in names
    ensures Sorting.SortedBy(r, Text.StrLe) && Sorting.Distinct(r)
    decreases |names|
  {
    if names == {} then []
    else
      var m := Least(names);
      var rest := Ascending(names - {m});
      LeastFirst(names, m, rest);
      [m] + rest
  }

  /** The least name followed by the others in order is in order. */
  lemma LeastFirst(names: set<string>, m: string, rest: seq<string>)
    requires m in names && forall n :: n in names ==> Text.StrLe(m, n)
    requires forall n :: n in rest <==> n in names - {m}
    requires Sorting.SortedBy(rest, Text.StrLe) && Sorting.Distinct(rest)
    ensures forall n :: n in [m] + rest <==> n in names
    ensures Sorting.SortedBy([m] + rest, Text.StrLe) && Sorting.Distinct([m] + rest)
  {
    var r := [m] + rest;
    forall i, j | 0 <= i < j < |r| ensures Text.StrLe(r[i], r[j]) && r[i] != r[j] {
      if i == 0 {
        assert r[j] == rest[j - 1] && rest[j - 1] in rest;
      } else {
        assert r[i] == rest[i - 1] && r[j] == rest[j - 1];
      }
    }
  }

  /** Only one sequence lists a set of names in ascending order without
      repetition: the order the query asks for fixes the result. */
  lemma {:induction false} AscendingUnique(a: seq<string>, b: seq<string>)
    requires Sorting.SortedBy(a, Text.StrLe) && Sorting.Distinct(a)
    requires Sorting.SortedBy(b, Text.StrLe) && Sorting.Distinct(b)
    requires forall n :: n in a <==> n in b
    ensures a == b
    decreases |a|
  {
    if |b| > 0 {
      assert b[0] in b;
    }
    if |a| > 0 {
      assert a[0] in a;
      var j :| 0 <= j < |b| && b[j] == a[0];
      assert b[0] in b;
      var i :| 0 <= i < |a| && a[i] == b[0];
      if j > 0 && i > 0 {
        assert Text.StrLe(b[0], b[j]) && Text.StrLe(a[0], a[i]);
        Text.StrLeAntisymmetric(a[0], b[0]);
      }
      assert a[0] == b[0];
      assert a == [a[0]] + a[1..] && b == [b[0]] + b[1..];
      forall n ensures n in a[1..] <==> n in b[1..] {
        if n in a[1..] {
          var k :| 0 <= k < |a[1..]| && a[1..][k] == n;
          assert a[k + 1] == n && a[0] != n;
          assert n in b;
          var m :| 0 <= m < |b| && b[m] == n;
          assert m != 0 && b[1..][m - 1] == n;
        }
        if n in b[1..] {
          var k :| 0 <= k < |b[1..]| && b[1..][k] == n;
          assert b[k + 1] == n && b[0] != n;
          assert n in a;
          var m :| 0 <= m < |a| && a[m] == n;
          assert m != 0 && a[1..][m - 1] == n;
        }
      }
      AscendingUnique(a[1..], b[1..]);
      assert a == [a[0]] + a[1..] && b == [b[0]] + b[1..];
    }
  }

  /** `get_labels_map` (Python): every requested id is a key, with its
      label names in ascending order. The empty request gives the empty
      map. */
  function LabelsMapPy(db: Db, ids: seq<int>): (r: map<int, seq<string>>)
    ensures ids == [] ==> r == map[]
    ensures r.Keys == set i | i in ids
    ensures forall i :: i in r ==>
              && Sorting.SortedBy(r[i], Text.StrLe) && Sorting.Distinct(r[i])
              && forall n :: n in r[i] <==> n in db.labels && (i, db.labels[n]) in db.issueLabels
  {
    map i | i in ids :: Ascending(NamesOf(db, i))
  }

  /** `get_labels_map` (Rust): only issues with at least one label appear,
      each with its label names in ascending order. */
  function LabelsMapRust(db: Db, ids: seq<int>): (r: map<int, seq<string>>)
    ensures ids == [] ==> r == map[]
    ensures forall i :: i in r <==> i in ids && NamesOf(db, i) != {}
    ensures forall i :: i in r ==>
              && r[i] != []
              && Sorting.SortedBy(r[i], Text.StrLe) && Sorting.Distinct(r[i])
              && forall n :: n in r[i] <==> n in db.labels && (i, db.labels[n]) in db.issueLabels
  {
    map i | i in ids && NamesOf(db, i) != {} :: Ascending(NamesOf(db, i))
  }

  /** The two builds agree on every issue the Rust one lists; the Python
      one also lists the requested issues without labels, with no names. */
  lemma LabelsMapsAgree(db: Db, ids: seq<int>)
    ensures var py, rust := LabelsMapPy(db, ids), LabelsMapRust(db, ids);
            && (forall i :: i in rust ==> i in py && rust[i] == py[i])
            && (forall i :: i in py ==> (i in rust <==> py[i] != []))
  {
    var py, rust := LabelsMapPy(db, ids), LabelsMapRust(db, ids);
    forall i | i in rust ensures i in py && rust[i] == py[i] {
      AscendingUnique(rust[i], py[i]);
    }
    forall i | i in py ensures i in rust <==> py[i] != [] {
      if py[i] != [] { assert py[i][0] in NamesOf(db, i); }
      if i in rust { assert rust[i][0] in NamesOf(db, i); }
    }
  }
}
