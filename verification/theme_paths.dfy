/** Where `read_theme_file` and `get_theme_asset_path`
    (`src-tauri/src/commands/themes.rs`) look, as a list of path segments.
    Paths follow the Windows rules the app runs under: '/' and '\' both
    separate segments, a leading separator restarts at the drive of the base
    (`PathBuf::join` keeps only the prefix), and a path carrying a drive
    (`X:` as its first two characters) replaces the base altogether. Opening
    a file resolves `.` and `..` lexically. */
module ThemePaths {
  import opened Wrappers
  import Text

  predicate IsSep(c: char) {
    c == '/' || c == '\\'
  }

  /** The non-empty segments of a relative or absolute path string. */
  function Parts(p: string): (segs: seq<string>)
    ensures forall i :: 0 <= i < |segs| ==> segs[i] != "" && forall c :: c in segs[i] ==> !IsSep(c)
  {
    var segs := Text.Words(p, IsSep);
    assert forall i :: 0 <= i < |segs| ==> segs[i] in segs;
    segs
  }

  /** `p` names a drive (`C:…`). */
  predicate HasDrive(p: string) {
    |p| >= 2 && p[1] == ':'
  }

  /** `p` starts at the root of a drive (`\…` or `/…`). */
  predicate HasRoot(p: string) {
    |p| >= 1 && IsSep(p[0])
  }

  /** `base.join(p)`. */
  function Join(base: seq<string>, p: string): (r: seq<string>)
    ensures !HasDrive(p) && !HasRoot(p) ==> r == base + Parts(p)
    ensures HasDrive(p) ==> r == Parts(p)
    ensures !HasDrive(p) && HasRoot(p) ==> r == base[..if |base| == 0 then 0 else 1] + Parts(p)
  {
    if HasDrive(p) then Parts(p)
    else if HasRoot(p) then (if |base| == 0 then [] else [base[0]]) + Parts(p)
    else base + Parts(p)
  }

  /** No `.` or `..` segment. */
  predicate Clean(segs: seq<string>) {
    forall i :: 0 <= i < |segs| ==> segs[i] != "." && segs[i] != ".."
  }

  /** No `..` segment. */
  predicate NoUp(segs: seq<string>) {
    forall i :: 0 <= i < |segs| ==> segs[i] != ".."
  }

  /** `segs` walked from `acc`: `.` stays, `..` climbs one level (never
      above the top), anything else descends. */
  function ResolveFrom(acc: seq<string>, segs: seq<string>): (r: seq<string>)
    requires Clean(acc)
    ensures Clean(r)
    ensures NoUp(segs) ==> |acc| <= |r| && r[..|acc|] == acc
    decreases |segs|
  {
    if |segs| == 0 then acc
    else if segs[0] == "." then ResolveFrom(acc, segs[1..])
    else if segs[0] == ".." then ResolveFrom(if |acc| == 0 then [] else acc[..|acc| - 1], segs[1..])
    else
      var r := ResolveFrom(acc + [segs[0]], segs[1..]);
      assert NoUp(segs) ==> r[..|acc|] == (acc + [segs[0]])[..|acc|];
      r
  }

  /** The file a path names once `.` and `..` are resolved. */
  function Resolve(segs: seq<string>): (r: seq<string>)
    ensures Clean(r)
  {
    ResolveFrom([], segs)
  }

  /** Walking clean segments only descends. */
  lemma {:induction false} ResolveFromClean(acc: seq<string>, segs: seq<string>)
    requires Clean(acc) && Clean(segs)
    ensures ResolveFrom(acc, segs) == acc + segs
    decreases |segs|
  {
    if |segs| > 0 {
      ResolveFromClean(acc + [segs[0]], segs[1..]);
      assert acc + [segs[0]] + segs[1..] == acc + segs;
    }
  }

  /** Resolving a concatenation resolves the second part from where the
      first one ends. */
  lemma {:induction false} ResolveFromAppend(acc: seq<string>, a: seq<string>, b: seq<string>)
    requires Clean(acc)
    ensures ResolveFrom(acc, a + b) == ResolveFrom(ResolveFrom(acc, a), b)
    decreases |a|
  {
    if |a| == 0 {
      assert a + b == b;
    } else {
      assert (a + b)[1..] == a[1..] + b;
      assert (a + b)[0] == a[0];
      if a[0] == "." {
        ResolveFromAppend(acc, a[1..], b);
      } else if a[0] == ".." {
        ResolveFromAppend(if |acc| == 0 then [] else acc[..|acc| - 1], a[1..], b);
      } else {
        ResolveFromAppend(acc + [a[0]], a[1..], b);
      }
    }
  }

  /** `p` lies in the directory `dir` or below it. */
  predicate Within(dir: seq<string>, p: seq<string>) {
    |dir| <= |p| && p[..|dir|] == dir
  }

  /** What both commands reject: any `..` in the requested path. */
  predicate RejectedAsWritten(rel: string) {
    Text.Contains(rel, "..")
  }

  /** The file `read_theme_file` opens, or its refusal; `get_theme_asset_path`
      makes the same check with "Invalid asset path" and computes the same
      location, which it hands back when something exists there and
      otherwise answers "Asset not found" (that existence test is not
      modelled). The theme id is not checked. */
  function ThemeFileAsWritten(themesDir: seq<string>, id: string, rel: string, refusal: string): (r: Result<seq<string>, string>)
    ensures r.Err? <==> Text.Contains(rel, "..")
    ensures r.Err? ==> r.error == refusal
    ensures r.Ok? ==> Clean(r.value)
  {
    if RejectedAsWritten(rel) then Err(refusal)
    else Ok(Resolve(Join(Join(themesDir, id), rel)))
  }

  /** A theme id that names exactly one directory below the themes folder:
      besides what `delete_theme` and `download_theme` refuse (`..`, '/',
      '\'), also the empty id, `.`, and a ':' that would name a drive. */
  predicate PlainId(id: string) {
    && id != "" && id != "."
    && !Text.Contains(id, "..")
    && forall c :: c in id ==> !IsSep(c) && c != ':'
  }

  /** A path that can only descend: no `..`, no root, no drive. */
  predicate Descends(rel: string) {
    && !Text.Contains(rel, "..")
    && !HasRoot(rel)
    && ':' !in rel
  }

  /** The guard with the cases `..` alone misses. */
  function ThemeFile(themesDir: seq<string>, id: string, rel: string, refusal: string): (r: Result<seq<string>, string>)
    requires Clean(themesDir)
    ensures r.Err? <==> !PlainId(id) || !Descends(rel)
    ensures r.Err? ==> r.error == refusal
    ensures r.Ok? ==> Within(themesDir + [id], r.value)
  {
    if !PlainId(id) || !Descends(rel) then Err(refusal)
    else
      StaysInside(themesDir, id, rel);
      Ok(Resolve(Join(Join(themesDir, id), rel)))
  }

  /** A path string without `..` yields no `..` segment. */
  lemma PartsNoUp(rel: string)
    requires !Text.Contains(rel, "..")
    ensures NoUp(Parts(rel))
  {
    var segs := Parts(rel);
    forall i | 0 <= i < |segs| ensures segs[i] != ".." {
      assert segs[i] in segs;
      Text.SplitWherePartsOccur(rel, IsSep);
    }
  }

  /** A plain id is one segment. */
  lemma PlainIdPart(id: string)
    requires PlainId(id)
    ensures Parts(id) == [id]
  {
    Text.SplitWhereNone(id, IsSep);
    assert Text.NonEmpty([id]) == [id] + Text.NonEmpty([]);
  }

  /** Under the stricter guard the resolved file lies in the theme's own
      directory. */
  lemma StaysInside(themesDir: seq<string>, id: string, rel: string)
    requires Clean(themesDir) && PlainId(id) && Descends(rel)
    ensures Within(themesDir + [id], Resolve(Join(Join(themesDir, id), rel)))
  {
    var dir := themesDir + [id];
    PlainIdPart(id);
    assert !HasDrive(id) by { if |id| >= 2 { assert id[1] in id; } }
    assert Join(themesDir, id) == dir;
    assert !HasDrive(rel) by { if |rel| >= 2 { assert rel[1] in rel; } }
    assert Join(dir, rel) == dir + Parts(rel);
    assert id != "." && id != "..";
    assert Clean(dir);
    ResolveFromAppend([], dir, Parts(rel));
    ResolveFromClean([], dir);
    assert [] + dir == dir;
    PartsNoUp(rel);
  }

  /** A themes folder `C:\issuer\themes`. */
  const Home: seq<string> := ["C:", "issuer", "themes"]

  /** A file name: one segment, not `.` or `..`, without a drive. */
  predicate PlainName(n: string) {
    n != "" && !Text.Contains(n, "..") && n != "." && forall c :: c in n ==> !IsSep(c) && c != ':'
  }

  /** The check as written lets a rooted file path through: `\<name>`
      opens `<name>` at the top of the drive, outside the theme's
      directory. */
  lemma RootedFileEscapes(id: string, name: string, p: string)
    requires PlainName(id) && PlainName(name) && p == ['\\'] + name
    ensures ThemeFileAsWritten(Home, id, p, "Invalid file path") == Ok(["C:", name])
    ensures !Within(Home + [id], ["C:", name])
  {
    assert !Text.Contains(p, "..") by {
      assert p[1..] == name;
      assert !Text.IsPrefix("..", p) by { if |p| >= 2 { assert p[..2][0] == '\\'; } }
    }
    SinglePart(id);
    assert !HasDrive(id) by { if |id| >= 2 { assert id[1] in id; } }
    assert Join(Home, id) == Home + [id];
    RootedJoin(Home + [id], name);
    ResolveFromClean([], ["C:", name]);
  }

  /** A separator and one segment restart at the drive. */
  lemma RootedJoin(base: seq<string>, n: string)
    requires |base| > 0 && PlainName(n)
    ensures Join(base, ['\\'] + n) == [base[0], n]
  {
    var p := ['\\'] + n;
    assert "" + ['\\'] + n == p;
    Text.SplitWhereCons("", '\\', n, IsSep);
    Text.SplitWhereNone(n, IsSep);
    assert Text.NonEmpty(["", n]) == Text.NonEmpty([n]);
    assert Text.NonEmpty([n]) == [n] + Text.NonEmpty([]);
    assert !HasDrive(p) by { if |p| >= 2 { assert p[1] == n[0] && n[0] in n; } }
  }

  /** It does not check the theme id at all: the id `..` with a file name
      opens that name next to the themes folder, in the application's own
      data folder. */
  lemma ClimbingIdEscapes(name: string)
    requires PlainName(name)
    ensures ThemeFileAsWritten(Home, "..", name, "Invalid file path") == Ok(["C:", "issuer", name])
  {
    assert Clean(Home);
    ClimbJoin(Home, name);
    ClimbResolve(Home, name);
    assert Home[..2] + [name] == ["C:", "issuer", name];
  }

  lemma ClimbJoin(base: seq<string>, n: string)
    requires PlainName(n)
    ensures Join(Join(base, ".."), n) == base + ([".."] + [n])
  {
    SinglePart(n);
    SinglePart("..");
    assert !HasDrive(n) by { if |n| >= 2 { assert n[1] in n; } }
  }

  lemma ClimbResolve(base: seq<string>, n: string)
    requires |base| > 0 && Clean(base) && PlainName(n)
    ensures Resolve(base + ([".."] + [n])) == base[..|base| - 1] + [n]
  {
    assert n != ".." by { assert Text.IsPrefix("..", ".."); }
    ResolveFromAppend([], base, [".."] + [n]);
    ResolveFromClean([], base);
    assert [] + base == base;
    ResolveFromClean(base[..|base| - 1], [n]);
  }

  lemma SinglePart(s: string)
    requires s != "" && forall c :: c in s ==> !IsSep(c)
    ensures Parts(s) == [s]
  {
    Text.SplitWhereNone(s, IsSep);
    assert Text.NonEmpty([s]) == [s] + Text.NonEmpty([]);
  }

  /** The stricter guard refuses both. */
  lemma GuardRefusesEscapes(id: string, name: string)
    requires PlainName(id) && PlainName(name)
    ensures ThemeFile(Home, id, ['\\'] + name, "Invalid file path") == Err("Invalid file path")
    ensures ThemeFile(Home, "..", name, "Invalid file path") == Err("Invalid file path")
  {
    assert Text.IsPrefix("..", "..");
  }

  /** The theme `nordic` with the file `\secret.txt`, and the theme `..`
      with the file `settings.json`, are instances. */
  lemma RootedExample(id: string, file: string)
    requires id == "nordic" && file == "\\secret.txt"
    ensures ThemeFileAsWritten(Home, id, file, "Invalid file path") == Ok(["C:", "secret.txt"])
  {
    PlainExample(id);
    PlainExample("secret.txt");
    assert file[0] == '\\' && file[1..] == "secret.txt";
    assert file == [file[0]] + file[1..];
    RootedFileEscapes(id, "secret.txt", file);
  }

  lemma ClimbingExample(file: string)
    requires file == "settings.json"
    ensures ThemeFileAsWritten(Home, "..", file, "Invalid file path") == Ok(["C:", "issuer", "settings.json"])
  {
    PlainExample(file);
    ClimbingIdEscapes(file);
  }

  /** The names the examples use are plain. */
  lemma PlainExample(n: string)
    requires n == "nordic" || n == "secret.txt" || n == "settings.json"
    ensures PlainName(n)
  {
    if n == "nordic" {
      PlainLiteral("nordic");
    } else if n == "secret.txt" {
      PlainLiteral("secret.txt");
    } else {
      PlainLiteral("settings.json");
    }
  }

  /** A name of letters and single dots, not starting with a dot, is plain. */
  lemma PlainLiteral(n: string)
    requires |n| > 0 && n[0] != '.'
    requires forall i :: 0 <= i < |n| ==> 'a' <= n[i] <= 'z' || n[i] == '.'
    requires forall i :: 0 <= i < |n| - 1 ==> !(n[i] == '.' && n[i + 1] == '.')
    ensures PlainName(n)
  {
    NotContainsUp(n);
    forall c | c in n ensures !IsSep(c) && c != ':' {
      var i :| 0 <= i < |n| && n[i] == c;
      assert 'a' <= n[i] <= 'z' || n[i] == '.';
    }
  }

  /** No `..` in a name without two dots in a row. */
  lemma {:induction false} NotContainsUp(s: string)
    requires forall i :: 0 <= i < |s| - 1 ==> !(s[i] == '.' && s[i + 1] == '.')
    ensures !Text.Contains(s, "..")
    decreases |s|
  {
    if |s| > 0 {
      NotContainsUp(s[1..]);
      if |s| >= 2 {
        assert s[..2] != ".." by { assert !(s[0] == '.' && s[1] == '.'); }
      }
    }
  }
}
