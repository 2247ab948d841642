/** The theme commands (`src-tauri/src/commands/themes.rs`): the installed
    themes as a folder per theme id, the `selected_theme` setting, the
    remote catalogue built from the IssuerTheme organisation's repository
    list, and the unpacking of a downloaded archive. File contents are
    strings; parsing `theme.json` is a parameter, since only its outcome
    matters here. The network, the clock and operating-system errors are
    parameters or left out. */
module Themes {
  import opened Wrappers
  import Text
  import ThemePaths
  import Sorting

  /** The parts of `theme.json` the commands look at; colours, fonts and
      the dashboard layout pass through untouched. */
  datatype ThemeConfig = ThemeConfig(id: string, name: string)

  /** `theme.json` parsed: the configuration or serde's message. */
  type Parser = string -> Result<ThemeConfig, string>

  /** The files of one theme folder by path relative to it. */
  type Files = map<string, string>

  /** The themes folder: its sub-folders by name, the files lying directly
      in it, and the setting. */
  datatype Store = Store(dirs: map<string, Files>, root: Files, selected: Option<string>)

  const ThemeJson := "theme.json"

  /** An id that `themes_dir.join(id)` turns into the themes folder itself:
      the empty id, and "." once Windows resolves the path. */
  predicate SelfId(id: string) {
    id == "" || id == "."
  }

  /** The contents of `<themes>/<id>/theme.json`, when there is such a file. */
  function JsonAt(st: Store, id: string): (j: Option<string>)
    ensures SelfId(id) ==> (j.Some? <==> ThemeJson in st.root)
    ensures !SelfId(id) ==> (j.Some? <==> id in st.dirs && ThemeJson in st.dirs[id])
  {
    if SelfId(id) then (if ThemeJson in st.root then Some(st.root[ThemeJson]) else None)
    else if id in st.dirs && ThemeJson in st.dirs[id] then Some(st.dirs[id][ThemeJson])
    else None
  }

  /** Folders holding a `theme.json` (`get_installed_theme_ids`). */
  function InstalledIds(st: Store): (ids: set<string>)
    ensures forall id :: id in ids <==> id in st.dirs && ThemeJson in st.dirs[id]
  {
    set id | id in st.dirs && ThemeJson in st.dirs[id]
  }

  /** The configuration `<themes>/<id>/theme.json` yields when it parses. */
  function Loaded(st: Store, id: string, parse: Parser): Option<ThemeConfig> {
    if JsonAt(st, id).Some? && parse(JsonAt(st, id).value).Ok?
    then Some(parse(JsonAt(st, id).value).value)
    else None
  }

  /** The configurations of the folders in `order` whose `theme.json`
      parses, in that order. */
  function LoadAll(st: Store, order: seq<string>, parse: Parser): (r: seq<ThemeConfig>)
    ensures |r| <= |order|
    ensures forall t :: t in r <==> exists i :: 0 <= i < |order| && Loaded(st, order[i], parse) == Some(t)
  {
    if |order| == 0 then []
    else
      var rest := LoadAll(st, order[1..], parse);
      assert forall t :: (exists i :: 0 <= i < |order[1..]| && Loaded(st, order[1..][i], parse) == Some(t))
                     <==> (exists i :: 1 <= i < |order| && Loaded(st, order[i], parse) == Some(t)) by {
        forall t | exists i :: 1 <= i < |order| && Loaded(st, order[i], parse) == Some(t)
          ensures exists i :: 0 <= i < |order[1..]| && Loaded(st, order[1..][i], parse) == Some(t)
        {
          var i :| 1 <= i < |order| && Loaded(st, order[i], parse) == Some(t);
          assert order[1..][i - 1] == order[i];
        }
      }
      match Loaded(st, order[0], parse)
      case Some(t) => [t] + rest
      case None => rest
  }

  /** `order` is how `read_dir` lists the themes folder: each sub-folder
      once, and never "" or ".", which name no entry of a directory. */
  predicate IsListingOf(order: seq<string>, st: Store) {
    && Sorting.Distinct(order)
    && (forall i :: 0 <= i < |order| ==> order[i] in st.dirs && !SelfId(order[i]))
    && (forall id :: id in st.dirs ==> id in order)
  }

  /** The folders whose `theme.json` exists and parses. */
  function LoadableIds(st: Store, parse: Parser): set<string> {
    set id | id in InstalledIds(st) && Loaded(st, id, parse).Some?
  }

  /** `get_installed_themes`: the folders in directory order, keeping those
      whose `theme.json` parses and skipping the rest. Every installed theme
      that parses is listed, once per folder, and nothing else is. */
  function InstalledThemes(st: Store, order: seq<string>, parse: Parser): (r: seq<ThemeConfig>)
    requires IsListingOf(order, st)
    ensures forall t :: t in r <==> exists id :: id in InstalledIds(st) && Loaded(st, id, parse) == Some(t)
    ensures |r| == |LoadableIds(st, parse)|
  {
    var r := LoadAll(st, order, parse);
    forall t | t in r ensures exists id :: id in InstalledIds(st) && Loaded(st, id, parse) == Some(t) {
      var i :| 0 <= i < |order| && Loaded(st, order[i], parse) == Some(t);
      assert order[i] in InstalledIds(st);
    }
    forall t | exists id :: id in InstalledIds(st) && Loaded(st, id, parse) == Some(t) ensures t in r {
      var id :| id in InstalledIds(st) && Loaded(st, id, parse) == Some(t);
      var i :| 0 <= i < |order| && order[i] == id;
    }
    LoadAllCount(st, order, parse);
    assert LoadableIn(st, order, parse) == LoadableIds(st, parse);
    r
  }

  /** The folders of `order` whose `theme.json` exists and parses. */
  function LoadableIn(st: Store, order: seq<string>, parse: Parser): set<string> {
    set id | id in order && Loaded(st, id, parse).Some?
  }

  /** The loadable folders of a listing are its head's, if it loads, and
      its tail's. */
  lemma LoadableInCons(st: Store, order: seq<string>, parse: Parser)
    requires |order| > 0
    ensures LoadableIn(st, order, parse)
            == (if Loaded(st, order[0], parse).Some? then {order[0]} else {}) + LoadableIn(st, order[1..], parse)
  {
    assert order == [order[0]] + order[1..];
  }

  /** Over a repeat-free listing, one configuration per folder that loads. */
  lemma {:induction false} LoadAllCount(st: Store, order: seq<string>, parse: Parser)
    requires Sorting.Distinct(order)
    ensures |LoadAll(st, order, parse)| == |LoadableIn(st, order, parse)|
  {
    if |order| > 0 {
      LoadAllCount(st, order[1..], parse);
      LoadableInCons(st, order, parse);
      assert order[0] !in LoadableIn(st, order[1..], parse);
    }
  }

  /** The id `get_active_theme` looks up: a selection that is neither empty
      nor "default". */
  function ActiveId(st: Store): (r: Option<string>)
    ensures r.Some? <==> st.selected.Some? && st.selected.value != "" && st.selected.value != "default"
    ensures r.Some? ==> r.value == st.selected.value
  {
    match st.selected
    case Some(id) => if id != "" && id != "default" then Some(id) else None
    case None => None
  }

  /** `get_active_theme`. */
  function GetActiveTheme(st: Store, parse: Parser): (r: Result<Option<ThemeConfig>, string>)
    ensures r == Ok(None) <==> ActiveId(st).None? || JsonAt(st, ActiveId(st).value).None?
    ensures r.Ok? && r.value.Some? ==> Loaded(st, ActiveId(st).value, parse) == r.value
    ensures r.Err? ==> JsonAt(st, ActiveId(st).value).Some?
                       && parse(JsonAt(st, ActiveId(st).value).value) == Err(r.error)
  {
    match ActiveId(st)
    case None => Ok(None)
    case Some(id) =>
      match JsonAt(st, id)
      case None => Ok(None)
      case Some(j) =>
        match parse(j)
        case Ok(t) => Ok(Some(t))
        case Err(e) => Err(e)
  }

  /** `set_active_theme`: stores the id as given, unchecked. */
  function SetActiveTheme(st: Store, id: Option<string>): (r: Store)
    ensures r.selected == id && r.dirs == st.dirs && r.root == st.root
    ensures ActiveId(r).Some? ==> id.Some? && ActiveId(r).value == id.value
  {
    st.(selected := id)
  }

  /** The active theme, when it comes from a folder of its own, is one of
      the installed themes; an id naming the themes folder itself reads the
      `theme.json` that `get_installed_themes` never looks at. */
  lemma ActiveIsInstalled(st: Store, order: seq<string>, parse: Parser)
    requires IsListingOf(order, st)
    ensures var a := GetActiveTheme(st, parse);
            a.Ok? && a.value.Some? && !SelfId(ActiveId(st).value) ==> a.value.value in InstalledThemes(st, order, parse)
  {
    var a := GetActiveTheme(st, parse);
    if a.Ok? && a.value.Some? && !SelfId(ActiveId(st).value) {
      assert ActiveId(st).value in InstalledIds(st);
    }
  }

  /** Selecting an installed theme makes it the active one; selecting
      nothing, "" or "default" makes the active theme the built-in one. */
  lemma SetThenGet(st: Store, id: Option<string>, parse: Parser)
    ensures id.Some? && id.value != "" && id.value != "default" && Loaded(st, id.value, parse).Some? ==>
              GetActiveTheme(SetActiveTheme(st, id), parse) == Ok(Loaded(st, id.value, parse))
    ensures id.None? || id.value == "" || id.value == "default" ==> GetActiveTheme(SetActiveTheme(st, id), parse) == Ok(None)
  {
  }

  /** What `delete_theme` and `download_theme` refuse as a theme id. */
  predicate InvalidId(id: string) {
    Text.Contains(id, "..") || '/' in id || '\\' in id
  }

  /** `delete_theme`: refuses "default" and ids holding `..`, '/' or '\',
      otherwise removes the folder the id names (if any) and, when the theme
      was the selected one, clears the selection. An id naming the themes
      folder itself removes every theme. */
  function DeleteTheme(st: Store, id: string): (r: (Store, Result<Unit, string>))
    ensures id == "default" ==> r.1 == Err("Cannot delete default theme")
    ensures id != "default" && InvalidId(id) ==> r.1 == Err("Invalid theme ID")
    ensures r.1.Err? <==> id == "default" || InvalidId(id)
    ensures r.1.Err? ==> r.0 == st
    ensures r.1.Ok? && SelfId(id) ==> r.0.dirs == map[] && r.0.root == map[]
    ensures r.1.Ok? && !SelfId(id) ==> OnlyFolderGone(st, r.0, id)
    ensures r.1.Ok? ==> (r.0.selected == None <==> st.selected == None || st.selected == Some(id))
    ensures r.1.Ok? && st.selected != Some(id) ==> r.0.selected == st.selected
  {
    if id == "default" then (st, Err("Cannot delete default theme"))
    else if InvalidId(id) then (st, Err("Invalid theme ID"))
    else if SelfId(id) then (Store(map[], map[], Unselect(st.selected, id)), Ok(Unit))
    else (RemoveFolder(st, id), Ok(Unit))
  }

  /** The selection once the theme `id` is gone. */
  function Unselect(selected: Option<string>, id: string): (r: Option<string>)
    ensures r == None <==> selected == None || selected == Some(id)
    ensures selected != Some(id) ==> r == selected
  {
    if selected == Some(id) then None else selected
  }

  /** The folder `id` is gone and nothing else in the themes folder
      changed. */
  ghost predicate OnlyFolderGone(st: Store, r: Store, id: string) {
    && id !in r.dirs && r.root == st.root
    && (forall d :: d != id ==> (d in r.dirs <==> d in st.dirs))
    && (forall d :: d != id && d in st.dirs ==> r.dirs[d] == st.dirs[d])
  }

  /** `remove_dir_all` on one theme folder, and the selection update. */
  function RemoveFolder(st: Store, id: string): (r: Store)
    ensures OnlyFolderGone(st, r, id)
    ensures r.selected == Unselect(st.selected, id)
  {
    Store(st.dirs - {id}, st.root, Unselect(st.selected, id))
  }

  /** As written, `delete_theme("")` passes the check and removes the whole
      themes folder, every installed theme with it. */
  lemma DeleteEmptyIdRemovesAll(st: Store, parse: Parser)
    ensures var (r, res) := DeleteTheme(st, "");
            res == Ok(Unit) && r.dirs == map[] && InstalledIds(r) == {}
            && forall id :: Loaded(r, id, parse) == None
  {
    assert !Text.Contains("", "..");
  }

  /** `delete_theme` with an id that names exactly one folder below the
      themes folder (`ThemePaths.PlainId`). */
  function DeleteThemeChecked(st: Store, id: string): (r: (Store, Result<Unit, string>))
    ensures r.1.Err? <==> id == "default" || !ThemePaths.PlainId(id)
    ensures r.1.Err? ==> r.0 == st
    ensures r.1.Ok? ==> OnlyFolderGone(st, r.0, id) && r.0.selected == Unselect(st.selected, id)
  {
    if id == "default" then (st, Err("Cannot delete default theme"))
    else if !ThemePaths.PlainId(id) then (st, Err("Invalid theme ID"))
    else (RemoveFolder(st, id), Ok(Unit))
  }

  /** Every id the checked command accepts, the written one accepts and
      treats alike. */
  lemma DeleteCheckedAgrees(st: Store, id: string)
    requires DeleteThemeChecked(st, id).1.Ok?
    ensures DeleteTheme(st, id) == DeleteThemeChecked(st, id)
  {
  }

  /** Deleting the active theme falls back to the built-in one. */
  lemma DeleteActiveFallsBack(st: Store, id: string, parse: Parser)
    requires ActiveId(st) == Some(id) && !InvalidId(id)
    ensures GetActiveTheme(DeleteTheme(st, id).0, parse) == Ok(None)
  {
  }

  /** Deleting another theme keeps the active one, unless the id names the
      themes folder itself: then the active theme goes too. */
  lemma DeleteOtherKeepsActive(st: Store, id: string, parse: Parser)
    requires ActiveId(st).Some? && ActiveId(st) != Some(id)
    ensures DeleteTheme(st, id).1.Ok? && !SelfId(id) ==> GetActiveTheme(DeleteTheme(st, id).0, parse) == GetActiveTheme(st, parse)
    ensures DeleteTheme(st, id).1.Ok? && SelfId(id) ==> GetActiveTheme(DeleteTheme(st, id).0, parse) == Ok(None)
  {
  }

  // The remote catalogue.

  /** The fields of one repository entry that are read; each is absent
      when the JSON value is not a string. */
  datatype Repo = Repo(name: Option<string>, description: Option<string>, ownerLogin: Option<string>)

  /** `ThemeMetadata`. */
  datatype Meta = Meta(id: string, name: string, description: string, version: string,
                       author: string, previewUrl: Option<string>, installed: bool)

  const RepoPrefix := "theme-"

  predicate IsThemeRepo(repo: Repo) {
    repo.name.Some? && Text.IsPrefix(RepoPrefix, repo.name.value)
  }

  function OrElse(o: Option<string>, d: string): string {
    if o.Some? then o.value else d
  }

  /** One catalogue entry for a theme repository. */
  function MetaOf(repo: Repo, installed: set<string>): (m: Meta)
    requires IsThemeRepo(repo)
    ensures RepoPrefix + m.id == repo.name.value
    ensures m.name == OrElse(repo.description, repo.name.value)
    ensures m.description == OrElse(repo.description, "")
    ensures m.author == OrElse(repo.ownerLogin, "IssuerTheme")
    ensures m.version == "" && m.previewUrl == None
    ensures m.installed <==> m.id in installed
  {
    var full := repo.name.value;
    var id := full[|RepoPrefix|..];
    assert RepoPrefix + id == full;
    Meta(id, OrElse(repo.description, full), OrElse(repo.description, ""), "",
         OrElse(repo.ownerLogin, "IssuerTheme"), None, id in installed)
  }

  /** The repository names of the listing. */
  function RepoNames(repos: seq<Repo>): set<string> {
    set i | 0 <= i < |repos| && repos[i].name.Some? :: repos[i].name.value
  }

  function IdsOf(ms: seq<Meta>): set<string> {
    set i | 0 <= i < |ms| :: ms[i].id
  }

  /** The catalogue: the theme repositories in listing order. */
  function RemoteThemes(repos: seq<Repo>, installed: set<string>): (r: seq<Meta>)
    ensures |r| <= |repos|
    ensures forall i :: 0 <= i < |r| ==> (r[i].installed <==> r[i].id in installed)
  {
    if |repos| == 0 then []
    else if IsThemeRepo(repos[0]) then [MetaOf(repos[0], installed)] + RemoteThemes(repos[1..], installed)
    else RemoteThemes(repos[1..], installed)
  }

  /** Every repository named `theme-<id>` gives an entry with that id, and
      no other entry exists. */
  lemma {:induction false} RemoteThemeIds(repos: seq<Repo>, installed: set<string>)
    ensures forall id :: id in IdsOf(RemoteThemes(repos, installed)) <==> RepoPrefix + id in RepoNames(repos)
  {
    if |repos| > 0 {
      RemoteThemeIds(repos[1..], installed);
      var r := RemoteThemes(repos, installed);
      var rest := RemoteThemes(repos[1..], installed);
      assert RepoNames(repos) == RepoNames(repos[..1]) + RepoNames(repos[1..]) by {
        forall n | n in RepoNames(repos) ensures n in RepoNames(repos[..1]) + RepoNames(repos[1..]) {
          var i :| 0 <= i < |repos| && repos[i].name.Some? && repos[i].name.value == n;
          if i > 0 { assert repos[1..][i - 1] == repos[i]; } else { assert repos[..1][0] == repos[0]; }
        }
        forall n | n in RepoNames(repos[1..]) ensures n in RepoNames(repos) {
          var i :| 0 <= i < |repos[1..]| && repos[1..][i].name.Some? && repos[1..][i].name.value == n;
          assert repos[i + 1] == repos[1..][i];
        }
        forall n | n in RepoNames(repos[..1]) ensures n in RepoNames(repos) {
          assert repos[..1][0] == repos[0];
        }
      }
      forall id ensures id in IdsOf(r) <==> RepoPrefix + id in RepoNames(repos) {
        if IsThemeRepo(repos[0]) {
          var m := MetaOf(repos[0], installed);
          assert r == [m] + rest;
          assert IdsOf(r) == {m.id} + IdsOf(rest) by {
            forall x | x in IdsOf(r) ensures x in {m.id} + IdsOf(rest) {
              var i :| 0 <= i < |r| && r[i].id == x;
              if i > 0 { assert rest[i - 1] == r[i]; }
            }
            forall x | x in IdsOf(rest) ensures x in IdsOf(r) {
              var i :| 0 <= i < |rest| && rest[i].id == x;
              assert r[i + 1] == rest[i];
            }
            assert r[0] == m;
          }
          assert RepoNames(repos[..1]) == {RepoPrefix + m.id} by { assert repos[..1][0] == repos[0]; }
          PrefixInjective(id, m.id);
        } else {
          assert r == rest;
          if RepoPrefix + id in RepoNames(repos[..1]) {
            assert repos[..1][0] == repos[0];
            assert Text.IsPrefix(RepoPrefix, RepoPrefix + id);
          }
        }
      }
    }
  }

  lemma PrefixInjective(a: string, b: string)
    ensures RepoPrefix + a == RepoPrefix + b <==> a == b
  {
    if RepoPrefix + a == RepoPrefix + b {
      assert a == (RepoPrefix + a)[|RepoPrefix|..];
      assert b == (RepoPrefix + b)[|RepoPrefix|..];
    }
  }

  /** The cache file as found: how old it is (negative when its time lies
      in the future, which `elapsed().unwrap_or_default()` treats as zero)
      and its contents when they parse. */
  datatype Cache = Cache(ageSecs: int, parsed: Option<seq<Meta>>)

  const CacheSecs := 300

  predicate Fresh(c: Option<Cache>) {
    c.Some? && c.value.ageSecs < CacheSecs && c.value.parsed.Some?
  }

  /** `list_remote_themes`: a fresh cache is returned as is; otherwise the
      repository listing is fetched (its failure is the error), turned into
      the catalogue and written back as the new cache. */
  function ListRemoteThemes(cache: Option<Cache>, fetch: Result<seq<Repo>, string>, installed: set<string>): (r: (Option<Cache>, Result<seq<Meta>, string>))
    ensures Fresh(cache) ==> r == (cache, Ok(cache.value.parsed.value))
    ensures !Fresh(cache) && fetch.Err? ==> r == (cache, Err(fetch.error))
    ensures !Fresh(cache) && fetch.Ok? ==> r.1 == Ok(RemoteThemes(fetch.value, installed))
    ensures !Fresh(cache) && fetch.Ok? ==> r.0 == Some(Cache(0, Some(r.1.value)))
  {
    if Fresh(cache) then (cache, Ok(cache.value.parsed.value))
    else match fetch
      case Err(e) => (cache, Err(e))
      case Ok(repos) =>
        var themes := RemoteThemes(repos, installed);
        (Some(Cache(0, Some(themes))), Ok(themes))
  }

  /** Within five minutes the second listing repeats the first without
      reaching the network, even when it would now fail. */
  lemma ListingIsCached(cache: Option<Cache>, fetch1: Result<seq<Repo>, string>, fetch2: Result<seq<Repo>, string>,
                        installed1: set<string>, installed2: set<string>, elapsed: nat)
    requires elapsed < CacheSecs
    requires ListRemoteThemes(cache, fetch1, installed1).1.Ok?
    ensures var (c1, r1) := ListRemoteThemes(cache, fetch1, installed1);
            var aged := Some(Cache(c1.value.ageSecs + elapsed, c1.value.parsed));
            (!Fresh(cache) ==> ListRemoteThemes(aged, fetch2, installed2).1 == r1)
  {
  }

  // Unpacking a downloaded archive.

  /** One member of the archive: its stored name, whether it is a
      directory, and its contents. */
  datatype Entry = Entry(name: string, isDir: bool, content: string)

  /** The archive's top folder: the first member's name up to its first
      '/'. */
  function TopFolder(first: string): (prefix: string)
    ensures '/' !in prefix
    ensures '/' !in first ==> prefix == first
  {
    assert '/' !in first ==> Text.Split(first, '/') == [first] by {
      if '/' !in first { Text.SplitNone(first, '/'); }
    }
    assert Text.Split(first, '/')[0] in Text.Split(first, '/');
    Text.Split(first, '/')[0]
  }

  /** The top folder of a member below `top` is `top`. */
  lemma TopFolderOf(top: string, rest: string)
    requires '/' !in top
    ensures TopFolder(top + "/" + rest) == top
  {
    Text.SplitCons(top, rest, '/');
  }

  /** A member's name below the top folder, or the whole name when it is
      not below it. */
  function Relative(name: string, prefix: string): (rel: string)
    ensures Text.IsPrefix(prefix + "/", name) ==> prefix + "/" + rel == name
    ensures !Text.IsPrefix(prefix + "/", name) ==> rel == name
  {
    if Text.IsPrefix(prefix + "/", name) then name[|prefix| + 1..] else name
  }

  /** The members with their relative names, the top folder's own entry
      (relative name "") dropped. */
  function Flatten(entries: seq<Entry>, prefix: string): (r: seq<Entry>)
    ensures |r| <= |entries|
    ensures forall i :: 0 <= i < |r| ==> r[i].name != ""
  {
    if |entries| == 0 then []
    else
      var rel := Relative(entries[0].name, prefix);
      var rest := Flatten(entries[1..], prefix);
      if rel == "" then rest else [entries[0].(name := rel)] + rest
  }

  /** The members written in order into `files`: directories only create
      folders; a later file of the same name overwrites an earlier one. */
  function Install(files: Files, flat: seq<Entry>): (r: Files)
    ensures forall n :: n in r <==> n in files || exists i :: 0 <= i < |flat| && !flat[i].isDir && flat[i].name == n
    ensures forall n :: n in files && (forall i :: 0 <= i < |flat| ==> flat[i].isDir || flat[i].name != n) ==> r[n] == files[n]
    decreases |flat|
  {
    if |flat| == 0 then files
    else
      var e := flat[0];
      var next := if e.isDir then files else files[e.name := e.content];
      var r := Install(next, flat[1..]);
      assert forall i :: 1 <= i < |flat| ==> flat[1..][i - 1] == flat[i];
      r
  }

  /** A GitHub-style archive: a top folder entry, then every member below
      it. */
  function Zipball(top: string, members: seq<Entry>): (z: seq<Entry>)
    ensures |z| == |members| + 1
  {
    [Entry(top + "/", true, "")] + Below(top, members)
  }

  function Below(top: string, members: seq<Entry>): (z: seq<Entry>)
    ensures |z| == |members|
    ensures forall i :: 0 <= i < |z| ==> z[i] == members[i].(name := top + "/" + members[i].name)
  {
    if |members| == 0 then [] else [members[0].(name := top + "/" + members[0].name)] + Below(top, members[1..])
  }

  /** Unpacking puts each member at its name below the top folder. */
  lemma ZipballFlattens(top: string, members: seq<Entry>)
    requires '/' !in top
    requires forall i :: 0 <= i < |members| ==> members[i].name != ""
    ensures var z := Zipball(top, members);
            Flatten(z, TopFolder(z[0].name)) == members
  {
    var z := Zipball(top, members);
    assert z[0].name == top + "/" + "";
    TopFolderOf(top, "");
    assert Text.IsPrefix(top + "/", top + "/");
    assert Relative(z[0].name, top) == "";
    FlattenBelow(top, members);
  }

  lemma {:induction false} FlattenBelow(top: string, members: seq<Entry>)
    requires forall i :: 0 <= i < |members| ==> members[i].name != ""
    ensures Flatten(Below(top, members), top) == members
  {
    if |members| > 0 {
      var b := Below(top, members);
      var n := members[0].name;
      assert b[0].name == top + "/" + n;
      assert Text.IsPrefix(top + "/", top + "/" + n);
      assert (top + "/" + n)[|top| + 1..] == n;
      assert b[1..] == Below(top, members[1..]);
      FlattenBelow(top, members[1..]);
      assert members[0].(name := n) == members[0];
    }
  }

  /** What `download_theme` received: the request failed (client, network,
      HTTP status), or an archive arrived that is corrupt or has members. */
  datatype Download = Failed(error: string) | Corrupt(zipError: string) | Archive(entries: seq<Entry>)

  /** The zip library's message for a member index past the end. */
  const NoSuchMember := "specified file not found in archive"

  /** The files already in the folder `id`. */
  function FilesOf(st: Store, id: string): Files {
    if id in st.dirs then st.dirs[id] else map[]
  }

  /** One member written below the themes folder itself: a name with a '/'
      lands in the sub-folder its first segment names, any other file lies
      directly in the themes folder, and a directory only creates a
      folder. */
  function Place(st: Store, e: Entry): (r: Store)
    ensures r.selected == st.selected
    ensures '/' !in e.name && !e.isDir ==> r.dirs == st.dirs && r.root == st.root[e.name := e.content]
  {
    if '/' in e.name then
      var head := TopFolder(e.name);
      FolderBefore(e.name);
      var tail := e.name[|head| + 1..];
      var files := FilesOf(st, head);
      st.(dirs := st.dirs[head := if e.isDir || tail == "" then files else files[tail := e.content]])
    else if e.isDir then st.(dirs := st.dirs[e.name := FilesOf(st, e.name)])
    else st.(root := st.root[e.name := e.content])
  }

  /** The first segment of a name with a '/' is shorter than the name. */
  lemma FolderBefore(name: string)
    requires '/' in name
    ensures |TopFolder(name)| < |name|
  {
    Text.SplitWhereFirstIsPrefix(name, c => c == '/');
  }

  /** The members written in order below the themes folder itself. */
  function InstallTop(st: Store, flat: seq<Entry>): (r: Store)
    ensures r.selected == st.selected
    decreases |flat|
  {
    if |flat| == 0 then st else InstallTop(Place(st, flat[0]), flat[1..])
  }

  /** Plain files land directly in the themes folder, as `Install` would
      write them into a theme's own folder; no theme folder changes. */
  lemma {:induction false} InstallTopFiles(st: Store, flat: seq<Entry>)
    requires forall i :: 0 <= i < |flat| ==> !flat[i].isDir && '/' !in flat[i].name
    ensures InstallTop(st, flat).dirs == st.dirs
    ensures InstallTop(st, flat).root == Install(st.root, flat)
    decreases |flat|
  {
    if |flat| > 0 {
      InstallTopFiles(Place(st, flat[0]), flat[1..]);
    }
  }

  /** `create_dir_all` on the destination: a theme folder appears (the
      themes folder itself already exists as far as the model goes). */
  function Created(st: Store, id: string): (r: Store)
    ensures r.selected == st.selected && r.root == st.root
    ensures !SelfId(id) ==> r.dirs == st.dirs[id := FilesOf(st, id)]
    ensures SelfId(id) ==> r == st
  {
    if SelfId(id) then st else st.(dirs := st.dirs[id := FilesOf(st, id)])
  }

  /** The archive unpacked into the folder `id` names. */
  function Unpack(st: Store, id: string, flat: seq<Entry>): (r: Store)
    ensures r.selected == st.selected
    ensures !SelfId(id) ==> r.root == st.root && r.dirs == st.dirs[id := Install(FilesOf(st, id), flat)]
  {
    if SelfId(id) then InstallTop(st, flat) else st.(dirs := st.dirs[id := Install(FilesOf(st, id), flat)])
  }

  /** The steps of `download_theme` after the id check: create the
      destination once the archive has arrived, unpack it flat, read back
      `theme.json`. Whatever was unpacked stays even when `theme.json` is
      missing or does not parse. */
  function Fetch(st: Store, id: string, got: Download, parse: Parser): (r: (Store, Result<ThemeConfig, string>))
    ensures got.Failed? ==> r.0 == st && r.1.Err?
    ensures r.0.selected == st.selected
    ensures !SelfId(id) ==> r.0.root == st.root
    ensures !SelfId(id) ==> forall d :: d != id ==> (d in r.0.dirs <==> d in st.dirs) && (d in st.dirs ==> r.0.dirs[d] == st.dirs[d])
    ensures !SelfId(id) && !got.Failed? ==> id in r.0.dirs
    ensures r.1.Ok? ==> JsonAt(r.0, id).Some? && parse(JsonAt(r.0, id).value) == Ok(r.1.value)
  {
    match got
    case Failed(e) => (st, Err(e))
    case Corrupt(e) => (Created(st, id), Err(e))
    case Archive(entries) =>
      if |entries| == 0 then (Created(st, id), Err(NoSuchMember))
      else
        var st' := Unpack(Created(st, id), id, Flatten(entries, TopFolder(entries[0].name)));
        (st', ReadBack(st', id, parse))
  }

  /** Reading `theme.json` back from the folder the archive went into: it
      succeeds exactly when the theme there loads. */
  function ReadBack(st: Store, id: string, parse: Parser): (r: Result<ThemeConfig, string>)
    ensures r.Ok? <==> Loaded(st, id, parse).Some?
    ensures r.Ok? ==> Loaded(st, id, parse) == Some(r.value)
  {
    match JsonAt(st, id)
    case None => Err("Downloaded theme has no theme.json")
    case Some(j) =>
      match parse(j)
      case Err(e) => Err("Invalid theme.json: " + e)
      case Ok(t) => Ok(t)
  }

  /** `download_theme` as written: the id check refuses only `..`, '/' and
      '\'. */
  function DownloadTheme(st: Store, id: string, got: Download, parse: Parser): (r: (Store, Result<ThemeConfig, string>))
    ensures InvalidId(id) ==> r == (st, Err("Invalid theme ID"))
    ensures !InvalidId(id) ==> r == Fetch(st, id, got, parse)
  {
    if InvalidId(id) then (st, Err("Invalid theme ID")) else Fetch(st, id, got, parse)
  }

  /** `download_theme` with the id check of `DeleteThemeChecked`: a download
      that succeeds installs exactly the theme `id` and touches no other
      folder. */
  function DownloadThemeChecked(st: Store, id: string, got: Download, parse: Parser): (r: (Store, Result<ThemeConfig, string>))
    ensures !ThemePaths.PlainId(id) ==> r == (st, Err("Invalid theme ID"))
    ensures got.Failed? ==> r.0 == st && r.1.Err?
    ensures r.0.selected == st.selected && r.0.root == st.root
    ensures forall d :: d != id ==> (d in r.0.dirs <==> d in st.dirs) && (d in st.dirs ==> r.0.dirs[d] == st.dirs[d])
    ensures ThemePaths.PlainId(id) && !got.Failed? ==> id in r.0.dirs
    ensures r.1.Ok? ==> id in InstalledIds(r.0) && Loaded(r.0, id, parse) == Some(r.1.value)
  {
    if !ThemePaths.PlainId(id) then (st, Err("Invalid theme ID")) else Fetch(st, id, got, parse)
  }

  /** The repository and the archive address `download_theme` asks for. */
  function DownloadUrl(id: string): (url: string)
    ensures Text.IsPrefix("https://api.github.com/repos/IssuerTheme/" + RepoPrefix + id, url)
  {
    var url := "https://api.github.com/repos/IssuerTheme/" + RepoPrefix + id + "/zipball/main";
    assert url[..|"https://api.github.com/repos/IssuerTheme/" + RepoPrefix + id|] == "https://api.github.com/repos/IssuerTheme/" + RepoPrefix + id;
    url
  }

  /** A theme downloaded from a GitHub archive with a `theme.json` into a
      folder of its own is installed, and the download succeeds exactly
      when that theme loads. */
  lemma DownloadInstalls(st: Store, id: string, top: string, members: seq<Entry>, parse: Parser)
    requires !InvalidId(id) && !SelfId(id) && '/' !in top
    requires forall i :: 0 <= i < |members| ==> members[i].name != ""
    requires exists i :: 0 <= i < |members| && !members[i].isDir && members[i].name == ThemeJson
    ensures var (st', r) := DownloadTheme(st, id, Archive(Zipball(top, members)), parse);
            && id in InstalledIds(st')
            && (r.Ok? <==> Loaded(st', id, parse).Some?)
            && (r.Ok? ==> Loaded(st', id, parse) == Some(r.value))
  {
    var z := Zipball(top, members);
    ZipballFlattens(top, members);
    FetchArchive(st, id, z, parse);
    UnpackFolder(st, id, members);
  }

  /** An archive with members ends in the unpacked store, and succeeds
      exactly when `theme.json` there loads. */
  lemma FetchArchive(st: Store, id: string, entries: seq<Entry>, parse: Parser)
    requires |entries| > 0
    ensures var st' := Unpack(Created(st, id), id, Flatten(entries, TopFolder(entries[0].name)));
            var r := Fetch(st, id, Archive(entries), parse);
            && r.0 == st'
            && (r.1.Ok? <==> Loaded(st', id, parse).Some?)
            && (r.1.Ok? ==> Loaded(st', id, parse) == Some(r.1.value))
  {
  }

  /** Unpacking a `theme.json` file into a theme's own folder installs it. */
  lemma UnpackFolder(st: Store, id: string, flat: seq<Entry>)
    requires !SelfId(id)
    requires exists i :: 0 <= i < |flat| && !flat[i].isDir && flat[i].name == ThemeJson
    ensures id in InstalledIds(Unpack(Created(st, id), id, flat))
  {
    var st1 := Created(st, id);
    assert ThemeJson in Install(FilesOf(st1, id), flat);
  }

  /** As written, `download_theme("")` unpacks the archive's files straight
      into the themes folder: with a `theme.json` that parses it reports
      success, yet no theme folder was added. */
  lemma DownloadEmptyIdInstallsNothing(st: Store, top: string, members: seq<Entry>, parse: Parser)
    requires '/' !in top
    requires forall i :: 0 <= i < |members| ==> members[i].name != "" && !members[i].isDir && '/' !in members[i].name
    requires exists i :: 0 <= i < |members| && members[i].name == ThemeJson
    ensures var (st', r) := DownloadTheme(st, "", Archive(Zipball(top, members)), parse);
            && st'.dirs == st.dirs && InstalledIds(st') == InstalledIds(st)
            && ThemeJson in st'.root
            && (r.Ok? <==> parse(st'.root[ThemeJson]).Ok?)
  {
    var z := Zipball(top, members);
    ZipballFlattens(top, members);
    assert !Text.Contains("", "..");
    InstallTopFiles(st, members);
  }
}
