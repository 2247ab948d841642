/** Turning bare Windows paths in Markdown text into links
    (`app/utils/linkify.py`). The path regexes and the Markdown-link regex
    are not modelled: their matches are inputs. */
module Linkify {
  import opened Wrappers
  import Text
  import Sorting
  import Percent

  // -------------------------------------------------------------------
  // file URLs
  // -------------------------------------------------------------------

  /** `path.replace("\\", "/")`. */
  function Slashes(path: string): (r: string)
    ensures |r| == |path|
    ensures forall k :: 0 <= k < |path| ==> r[k] == (if path[k] == '\\' then '/' else path[k])
  {
    Text.MapChars(path, c => if c == '\\' then '/' else c)
  }

  /** The extra characters `quote` leaves alone here. */
  const UrlSafe: set<char> := {'/', ':'}

  predicate IsUnc(path: string) {
    Text.IsPrefix("\\\\", path)
  }

  /** `_path_to_file_url`: "file:" before a UNC path (whose two leading
      backslashes become the "//" of the authority), "file:///" before
      anything else. */
  function FileUrl(path: string): (url: string)
  {
    (if IsUnc(path) then "file:" else "file:///") + Percent.Encode(Slashes(path), UrlSafe)
  }

  /** A file URL starts with the prefix for its kind of path; a UNC path's
      two leading backslashes give the "//" before the host. */
  lemma FileUrlPrefix(path: string)
    ensures Text.IsPrefix(if IsUnc(path) then "file://" else "file:///", FileUrl(path))
  {
    if IsUnc(path) {
      var s := Slashes(path);
      assert s == "//" + s[2..];
      Percent.EncodeAppend("//", s[2..], UrlSafe);
      Percent.EncodeSafe("//", UrlSafe);
      assert FileUrl(path) == "file:" + "//" + Percent.Encode(s[2..], UrlSafe);
    }
  }

  /** After its prefix, a file URL holds exactly the UTF-8 bytes of the
      path with backslashes read as '/', percent-encoded. */
  lemma FileUrlDecodes(path: string)
    ensures var n := if IsUnc(path) then 5 else 8;
            Percent.PercentDecode(FileUrl(path)[n..]) == Some(Percent.Utf8(Slashes(path)))
  {
    var n := if IsUnc(path) then 5 else 8;
    assert FileUrl(path)[n..] == Percent.Encode(Slashes(path), UrlSafe);
    Percent.DecodeEncode(Slashes(path), UrlSafe);
  }

  lemma ConcatUrlChars(p: string, q: string)
    requires forall k :: 0 <= k < |p| ==> Percent.UrlChar(p[k], UrlSafe)
    requires forall k :: 0 <= k < |q| ==> Percent.UrlChar(q[k], UrlSafe)
    ensures forall k :: 0 <= k < |p + q| ==> Percent.UrlChar((p + q)[k], UrlSafe)
  {
  }

  lemma PrefixUrlChars(p: string)
    requires p == "file:" || p == "file:///"
    ensures forall k :: 0 <= k < |p| ==> Percent.UrlChar(p[k], UrlSafe)
  {
    assert Percent.Unreserved('f' as int as Percent.byte) && Percent.Unreserved('i' as int as Percent.byte);
    assert Percent.Unreserved('l' as int as Percent.byte) && Percent.Unreserved('e' as int as Percent.byte);
    assert Percent.SafeByte(':' as int as Percent.byte, UrlSafe) && Percent.SafeByte('/' as int as Percent.byte, UrlSafe);
  }

  lemma NotUrlChars()
    ensures !Percent.UrlChar('\\', UrlSafe) && !Percent.UrlChar(' ', UrlSafe)
  {
  }

  /** No backslash and no white space survives into a file URL. */
  lemma FileUrlChars(path: string)
    ensures forall k :: 0 <= k < |FileUrl(path)| ==> Percent.UrlChar(FileUrl(path)[k], UrlSafe)
    ensures '\\' !in FileUrl(path) && ' ' !in FileUrl(path)
  {
    var p := if IsUnc(path) then "file:" else "file:///";
    var q := Percent.Encode(Slashes(path), UrlSafe);
    PrefixUrlChars(p);
    ConcatUrlChars(p, q);
    NotUrlChars();
  }

  // -------------------------------------------------------------------
  // the splice
  // -------------------------------------------------------------------

  /** A regex match: where it starts and the text it matched. */
  datatype Match = Match(start: nat, found: string)

  /** The match really is that part of the text. */
  predicate Occurs(text: string, m: Match) {
    m.start + |m.found| <= |text| && text[m.start..m.start + |m.found|] == m.found
  }

  /** The characters stripped from the end of a matched path. */
  const TrailingPunct: set<char> := {'.', ',', ';', ':', ')', '、', '。', '）', '」', '』'}

  /** `s.rstrip(cs)`. */
  function RStrip(s: string, cs: set<char>): (r: string)
    ensures |r| <= |s| && r == s[..|r|]
    ensures forall k :: |r| <= k < |s| ==> s[k] in cs
    ensures r == "" || r[|r| - 1] !in cs
    decreases |s|
  {
    if s != [] && s[|s| - 1] in cs then RStrip(s[..|s| - 1], cs) else s
  }

  /** The (start, end) spans of the Markdown links and images already in
      the text; a path lying wholly inside one is left alone. */
  predicate Protected(spans: seq<(int, int)>, start: int, end: int) {
    exists i :: 0 <= i < |spans| && spans[i].0 <= start && end <= spans[i].1
  }

  /** The output as pieces: text copied through, or a path made a link. */
  datatype Piece = Plain(s: string) | Link(path: string)

  /** The Markdown written out: a link is `[path](url)`. */
  function Render(ps: seq<Piece>): (out: string)
    ensures (forall i :: 0 <= i < |ps| ==> ps[i].Plain?) ==> out == Shown(ps)
  {
    if ps == [] then ""
    else
      (match ps[0]
       case Plain(s) => s
       case Link(path) => "[" + path + "](" + FileUrl(path) + ")") + Render(ps[1..])
  }

  /** What a reader sees once the links are rendered: each link shows its
      path. */
  function Shown(ps: seq<Piece>): string {
    if ps == [] then "" else (match ps[0] case Plain(s) => s case Link(path) => path) + Shown(ps[1..])
  }

  /** Every linked path has had its trailing punctuation removed. */
  predicate Trimmed(ps: seq<Piece>) {
    forall i :: 0 <= i < |ps| && ps[i].Link? ==> ps[i].path == "" || ps[i].path[|ps[i].path| - 1] !in TrailingPunct
  }

  /** The path a match links to, and where the link ends in the text. */
  function PathOf(m: Match): (path: string)
    ensures Text.IsPrefix(path, m.found)
  {
    RStrip(m.found, TrailingPunct)
  }

  /** `text[a:b]` in Python: empty when a > b. */
  function PySlice(text: string, a: nat, b: nat): (r: string)
    requires a <= |text| && b <= |text|
    ensures a <= b ==> r == text[a..b]
    ensures a > b ==> r == ""
  {
    if a <= b then text[a..b] else ""
  }

  /** The loop of `linkify_file_paths` as written: every match is linked
      unless its trimmed extent is protected, even one that starts inside
      the path linked just before it. */
  function SpliceAsWritten(text: string, ms: seq<Match>, spans: seq<(int, int)>, last: nat): (ps: seq<Piece>)
    requires last <= |text|
    requires forall i :: 0 <= i < |ms| ==> Occurs(text, ms[i])
    ensures |ps| >= 1 && ps[|ps| - 1].Plain?
    ensures Trimmed(ps)
    decreases |ms|
  {
    if ms == [] then [Plain(text[last..])]
    else
      var m := ms[0];
      var path := PathOf(m);
      assert Occurs(text, m);
      if Protected(spans, m.start, m.start + |path|) then SpliceAsWritten(text, ms[1..], spans, last)
      else
        var rest := SpliceAsWritten(text, ms[1..], spans, m.start + |path|);
        PathTrimmed(m);
        TrimmedStep(PySlice(text, last, m.start), path, rest);
        [Plain(PySlice(text, last, m.start)), Link(path)] + rest
  }

  lemma PathTrimmed(m: Match)
    ensures PathOf(m) == "" || PathOf(m)[|PathOf(m)| - 1] !in TrailingPunct
  {
  }

  /** Plain text and a trimmed link before trimmed pieces stay trimmed. */
  lemma TrimmedStep(before: string, path: string, rest: seq<Piece>)
    requires path == "" || path[|path| - 1] !in TrailingPunct
    requires Trimmed(rest)
    ensures Trimmed([Plain(before), Link(path)] + rest)
  {
    var ps := [Plain(before), Link(path)] + rest;
    assert forall i :: 2 <= i < |ps| ==> ps[i] == rest[i - 2];
  }

  /** The loop as intended: a match starting before the end of the previous
      link overlaps it and is skipped. */
  function Splice(text: string, ms: seq<Match>, spans: seq<(int, int)>, last: nat): (ps: seq<Piece>)
    requires last <= |text|
    requires forall i :: 0 <= i < |ms| ==> Occurs(text, ms[i])
    ensures Shown(ps) == text[last..]
    ensures Trimmed(ps)
    decreases |ms|
  {
    if ms == [] then
      assert Shown([Plain(text[last..])]) == text[last..] + Shown([]);
      [Plain(text[last..])]
    else
      var m := ms[0];
      var path := PathOf(m);
      var end := m.start + |path|;
      assert Occurs(text, m);
      if m.start < last || Protected(spans, m.start, end) then Splice(text, ms[1..], spans, last)
      else
        var rest := Splice(text, ms[1..], spans, end);
        PathInText(text, m);
        LinkStep(text, last, m.start, end, path, rest);
        [Plain(text[last..m.start]), Link(path)] + rest
  }

  /** A match's path is the text it starts with, and ends in no trailing
      punctuation. */
  lemma PathInText(text: string, m: Match)
    requires Occurs(text, m)
    ensures m.start + |PathOf(m)| <= |text|
    ensures PathOf(m) == text[m.start..m.start + |PathOf(m)|]
    ensures PathOf(m) == "" || PathOf(m)[|PathOf(m)| - 1] !in TrailingPunct
  {
    var path := PathOf(m);
    assert m.found[..|path|] == path;
    assert text[m.start..m.start + |m.found|][..|path|] == text[m.start..m.start + |path|];
  }

  /** Plain text up to a link, the link, and pieces showing the rest show
      the whole text from `last`. */
  lemma LinkStep(text: string, last: nat, start: nat, end: nat, path: string, rest: seq<Piece>)
    requires last <= start <= end <= |text| && path == text[start..end]
    requires path == "" || path[|path| - 1] !in TrailingPunct
    requires Shown(rest) == text[end..] && Trimmed(rest)
    ensures Shown([Plain(text[last..start]), Link(path)] + rest) == text[last..]
    ensures Trimmed([Plain(text[last..start]), Link(path)] + rest)
  {
    var ps := [Plain(text[last..start]), Link(path)] + rest;
    assert ps[1..] == [Link(path)] + rest && ps[1..][1..] == rest;
    assert text[last..] == text[last..start] + text[start..end] + text[end..];
    assert forall i :: 2 <= i < |ps| ==> ps[i] == rest[i - 2];
  }

  /** When no match starts inside the previous link, the loop as written
      and as intended agree. */
  predicate Disjoint(ms: seq<Match>, last: nat) {
    && (|ms| > 0 ==> ms[0].start >= last)
    && forall i :: 0 < i < |ms| ==> ms[i].start >= ms[i - 1].start + |PathOf(ms[i - 1])|
  }

  lemma DisjointTail(ms: seq<Match>, last: nat, next: nat)
    requires |ms| > 0 && Disjoint(ms, last)
    requires next <= ms[0].start + |PathOf(ms[0])|
    ensures Disjoint(ms[1..], next)
  {
    if |ms| > 1 { assert ms[1].start >= ms[0].start + |PathOf(ms[0])|; }
    forall i | 0 < i < |ms[1..]| ensures ms[1..][i].start >= ms[1..][i - 1].start + |PathOf(ms[1..][i - 1])| {
      assert ms[1..][i] == ms[i + 1] && ms[1..][i - 1] == ms[i];
    }
  }

  lemma {:induction false} SpliceAgreesWhenDisjoint(text: string, ms: seq<Match>, spans: seq<(int, int)>, last: nat)
    requires last <= |text|
    requires forall i :: 0 <= i < |ms| ==> Occurs(text, ms[i])
    requires Disjoint(ms, last)
    ensures SpliceAsWritten(text, ms, spans, last) == Splice(text, ms, spans, last)
    decreases |ms|
  {
    if ms != [] {
      var m := ms[0];
      var end := m.start + |PathOf(m)|;
      var next := if Protected(spans, m.start, end) then last else end;
      DisjointTail(ms, last, next);
      SpliceAgreesWhenDisjoint(text, ms[1..], spans, next);
    }
  }

  /** The order of the matches after `all_matches.sort(key=start)`. A drive
      match starts with a letter and a UNC match with a backslash, so no two
      matches share a start and the sort's stability does not matter. */
  function ByStart(ms: seq<Match>): (r: seq<Match>)
    ensures Sorting.SortedBy(r, (a: Match, b: Match) => a.start <= b.start)
    ensures multiset(r) == multiset(ms)
    ensures forall m :: m in r <==> m in ms
  {
    var le := (a: Match, b: Match) => a.start <= b.start;
    Sorting.SortByElements(ms, le);
    Sorting.SortBy(ms, le)
  }

  /** The matches of both patterns in the order the loop visits them; each
      is a part of the text. */
  function Visited(text: string, drive: seq<Match>, unc: seq<Match>): (ms: seq<Match>)
    requires forall i :: 0 <= i < |drive + unc| ==> Occurs(text, (drive + unc)[i])
    ensures forall i :: 0 <= i < |ms| ==> Occurs(text, ms[i])
    ensures forall m :: m in ms <==> m in drive + unc
  {
    var ms := ByStart(drive + unc);
    assert forall i :: 0 <= i < |ms| ==> Occurs(text, ms[i]) by {
      forall i | 0 <= i < |ms| ensures Occurs(text, ms[i]) {
        assert ms[i] in drive + unc;
      }
    }
    ms
  }

  /** The pieces of `linkify_file_paths(text)` as written, from the matches
      of the drive and UNC patterns and the protected spans. Every link is
      trimmed; the shown text is the input whenever no match starts inside
      the link before it. */
  function LinkifyPieces(text: string, drive: seq<Match>, unc: seq<Match>, spans: seq<(int, int)>): (ps: seq<Piece>)
    requires forall i :: 0 <= i < |drive + unc| ==> Occurs(text, (drive + unc)[i])
    ensures Trimmed(ps)
    ensures Disjoint(Visited(text, drive, unc), 0) ==> Shown(ps) == text
  {
    var ms := Visited(text, drive, unc);
    AgreesIfDisjoint(text, ms, spans);
    SpliceAsWritten(text, ms, spans, 0)
  }

  lemma AgreesIfDisjoint(text: string, ms: seq<Match>, spans: seq<(int, int)>)
    requires forall i :: 0 <= i < |ms| ==> Occurs(text, ms[i])
    ensures Disjoint(ms, 0) ==> SpliceAsWritten(text, ms, spans, 0) == Splice(text, ms, spans, 0)
  {
    if Disjoint(ms, 0) {
      SpliceAgreesWhenDisjoint(text, ms, spans, 0);
    }
  }

  /** The same pieces from the corrected loop: the shown text is always the
      input. */
  function LinkifyPiecesCorrected(text: string, drive: seq<Match>, unc: seq<Match>, spans: seq<(int, int)>): (ps: seq<Piece>)
    requires forall i :: 0 <= i < |drive + unc| ==> Occurs(text, (drive + unc)[i])
    ensures Shown(ps) == text
    ensures Trimmed(ps)
  {
    Splice(text, Visited(text, drive, unc), spans, 0)
  }

  /** `linkify_file_paths` as written: empty text comes back as it is, and
      so does any text without matches. */
  function Linkify(text: string, drive: seq<Match>, unc: seq<Match>, spans: seq<(int, int)>): (out: string)
    requires forall i :: 0 <= i < |drive + unc| ==> Occurs(text, (drive + unc)[i])
    ensures text == "" ==> out == ""
    ensures drive == [] && unc == [] ==> out == text
  {
    if text == "" then text
    else
      var ps := LinkifyPieces(text, drive, unc, spans);
      assert drive == [] && unc == [] ==> ps == [Plain(text)];
      Render(ps)
  }

  /** `linkify_file_paths` with the corrected loop. */
  function LinkifyCorrected(text: string, drive: seq<Match>, unc: seq<Match>, spans: seq<(int, int)>): (out: string)
    requires forall i :: 0 <= i < |drive + unc| ==> Occurs(text, (drive + unc)[i])
    ensures text == "" ==> out == ""
    ensures drive == [] && unc == [] ==> out == text
  {
    if text == "" then text
    else
      var ps := LinkifyPiecesCorrected(text, drive, unc, spans);
      assert drive == [] && unc == [] ==> ps == [Plain(text)];
      Render(ps)
  }

  /** Without overlapping matches the program and the corrected loop write
      the same Markdown. */
  lemma LinkifyAgreesWhenDisjoint(text: string, drive: seq<Match>, unc: seq<Match>, spans: seq<(int, int)>)
    requires forall i :: 0 <= i < |drive + unc| ==> Occurs(text, (drive + unc)[i])
    requires Disjoint(Visited(text, drive, unc), 0)
    ensures Linkify(text, drive, unc, spans) == LinkifyCorrected(text, drive, unc, spans)
  {
    SpliceAgreesWhenDisjoint(text, Visited(text, drive, unc), spans, 0);
  }

  /** When every match lies inside an existing Markdown link the text is
      returned unchanged. */
  lemma {:induction false} AllProtectedUnchanged(text: string, ms: seq<Match>, spans: seq<(int, int)>, last: nat)
    requires last <= |text|
    requires forall i :: 0 <= i < |ms| ==> Occurs(text, ms[i])
    requires forall i :: 0 <= i < |ms| ==> Protected(spans, ms[i].start, ms[i].start + |PathOf(ms[i])|)
    ensures Render(SpliceAsWritten(text, ms, spans, last)) == text[last..]
    decreases |ms|
  {
    if ms != [] {
      AllProtectedUnchanged(text, ms[1..], spans, last);
    } else {
      assert Render([Plain(text[last..])]) == text[last..] + Render([]);
    }
  }

  /** The defect of the loop as written: in `C:\a\\srv\share` the drive
      pattern matches the whole path and the UNC pattern matches
      `\\srv\share` from index 4, inside it. Both become links, so the
      reader sees `\\srv\share` twice. */
  lemma OverlapShowsPathTwice()
    ensures var text := "C:\\a\\\\srv\\share";
            var ms := [Match(0, text), Match(4, "\\\\srv\\share")];
            && Occurs(text, ms[0]) && Occurs(text, ms[1])
            && Shown(SpliceAsWritten(text, ms, [], 0)) == text + "\\\\srv\\share"
            && Shown(Splice(text, ms, [], 0)) == text
  {
    var text := "C:\\a\\\\srv\\share";
    assert |text| == 15 && text[4..] == "\\\\srv\\share";
    OverlapTwice(text, 4, "\\\\srv\\share");
  }

  /** A second match that ends where the first does but starts inside it:
      the loop as written shows its text a second time. */
  lemma {:induction false} OverlapTwice(text: string, k: nat, u: string)
    requires 0 < k < |text| && text[k..] == u
    requires text[|text| - 1] !in TrailingPunct
    ensures var ms := [Match(0, text), Match(k, u)];
            && Occurs(text, ms[0]) && Occurs(text, ms[1])
            && Shown(SpliceAsWritten(text, ms, [], 0)) == text + u
            && Shown(Splice(text, ms, [], 0)) == text
  {
    var n := |text|;
    var ms := [Match(0, text), Match(k, u)];
    assert text[0..n] == text;
    assert Occurs(text, ms[0]) && Occurs(text, ms[1]);
    KeepsPath(ms[0]);
    WrittenStep(text, ms, [], 0);
    assert ms[1..] == [Match(k, u)];
    var second := SpliceAsWritten(text, ms[1..], [], n);
    OverlapSecond(text, k, u);
    ShownStep("", text, second);
    assert Shown([Plain(""), Link(text)] + second) == text + u;
  }

  /** The second turn: the inner match is linked again, with nothing
      before it since the loop is already past its start. */
  lemma {:induction false} OverlapSecond(text: string, k: nat, u: string)
    requires 0 < k < |text| && text[k..] == u
    requires text[|text| - 1] !in TrailingPunct
    ensures Shown(SpliceAsWritten(text, [Match(k, u)], [], |text|)) == u
  {
    var n := |text|;
    var ms := [Match(k, u)];
    assert Occurs(text, ms[0]);
    KeepsPath(ms[0]);
    WrittenStep(text, ms, [], n);
    assert ms[1..] == [];
    var tail := SpliceAsWritten(text, [], [], n);
    assert tail == [Plain("")];
    assert Shown(tail) == "" by { assert tail[1..] == []; }
    ShownStep("", u, tail);
  }

  /** A match ending in no trailing punctuation links all it found. */
  lemma {:induction false} KeepsPath(m: Match)
    requires m.found != "" && m.found[|m.found| - 1] !in TrailingPunct
    ensures PathOf(m) == m.found
  {
  }

  /** One turn of the loop as written on a match outside every span. */
  lemma {:induction false} WrittenStep(text: string, ms: seq<Match>, spans: seq<(int, int)>, last: nat)
    requires last <= |text|
    requires forall i :: 0 <= i < |ms| ==> Occurs(text, ms[i])
    requires ms != [] && !Protected(spans, ms[0].start, ms[0].start + |PathOf(ms[0])|)
    ensures ms[0].start + |PathOf(ms[0])| <= |text|
    ensures SpliceAsWritten(text, ms, spans, last)
            == [Plain(PySlice(text, last, ms[0].start)), Link(PathOf(ms[0]))]
               + SpliceAsWritten(text, ms[1..], spans, ms[0].start + |PathOf(ms[0])|)
  {
    assert Occurs(text, ms[0]);
  }

  lemma {:induction false} ShownStep(before: string, path: string, rest: seq<Piece>)
    ensures Shown([Plain(before), Link(path)] + rest) == before + path + Shown(rest)
  {
    var ps := [Plain(before), Link(path)] + rest;
    assert ps[1..] == [Link(path)] + rest && ps[1..][1..] == rest;
  }
}
