/** Mail drafts (`src-tauri/src/commands/outlook.rs`): the body's line
    endings, the string literals of the VBScript that drives Outlook over
    COM, and the mailto arguments of the two other routes. Launching
    processes and writing the script file are not modelled. */
module Outlook {
  import opened Wrappers
  import Text
  import Percent

  // -------------------------------------------------------------------
  // line endings
  // -------------------------------------------------------------------

  /** The line breaks of `s` — CR LF, a lone CR, a lone LF — each written
      as one CR LF: the reference `normalize_body` is checked against. */
  function Crlf(s: string): string
    decreases |s|
  {
    if s == [] then []
    else if Text.IsPrefix("\r\n", s) then "\r\n" + Crlf(s[2..])
    else if s[0] == '\r' || s[0] == '\n' then "\r\n" + Crlf(s[1..])
    else [s[0]] + Crlf(s[1..])
  }

  /** Every CR is followed by an LF and every LF follows a CR. */
  predicate NoLoneBreak(w: string) {
    && (forall k :: 0 <= k < |w| && w[k] == '\r' ==> k + 1 < |w| && w[k + 1] == '\n')
    && (forall k :: 0 <= k < |w| && w[k] == '\n' ==> k > 0 && w[k - 1] == '\r')
  }

  /** The same, read left to right: CR and LF only come as CR LF pairs. */
  predicate WellEnded(w: string)
    decreases |w|
  {
    if w == [] then true
    else if w[0] == '\r' then |w| >= 2 && w[1] == '\n' && WellEnded(w[2..])
    else if w[0] == '\n' then false
    else WellEnded(w[1..])
  }

  predicate NoBreak(s: string) {
    forall k :: 0 <= k < |s| ==> s[k] != '\r' && s[k] != '\n'
  }

  lemma {:induction false} WellEndedIff(w: string)
    ensures WellEnded(w) <==> NoLoneBreak(w)
    decreases |w|
  {
    if w != [] {
      if w[0] == '\r' && |w| >= 2 && w[1] == '\n' {
        WellEndedIff(w[2..]);
        var t := w[2..];
        if NoLoneBreak(t) {
          forall k | 0 <= k < |w| && w[k] == '\n' ensures k > 0 && w[k - 1] == '\r' {
            if k > 2 { assert t[k - 2] == '\n'; }
          }
          forall k | 0 <= k < |w| && w[k] == '\r' ensures k + 1 < |w| && w[k + 1] == '\n' {
            if k >= 2 { assert t[k - 2] == '\r'; }
          }
        }
        if NoLoneBreak(w) {
          forall k | 0 <= k < |t| && t[k] == '\n' ensures k > 0 && t[k - 1] == '\r' {
            assert w[k + 2] == '\n';
          }
          forall k | 0 <= k < |t| && t[k] == '\r' ensures k + 1 < |t| && t[k + 1] == '\n' {
            assert w[k + 2] == '\r';
          }
        }
      } else if w[0] == '\r' {
        assert !NoLoneBreak(w);
      } else if w[0] == '\n' {
        assert !NoLoneBreak(w);
      } else {
        WellEndedIff(w[1..]);
        var t := w[1..];
        if NoLoneBreak(t) {
          forall k | 0 <= k < |w| && w[k] == '\n' ensures k > 0 && w[k - 1] == '\r' {
            assert t[k - 1] == '\n';
          }
          forall k | 0 <= k < |w| && w[k] == '\r' ensures k + 1 < |w| && w[k + 1] == '\n' {
            assert t[k - 1] == '\r';
          }
        }
        if NoLoneBreak(w) {
          forall k | 0 <= k < |t| && t[k] == '\n' ensures k > 0 && t[k - 1] == '\r' {
            assert w[k + 1] == '\n';
          }
          forall k | 0 <= k < |t| && t[k] == '\r' ensures k + 1 < |t| && t[k + 1] == '\n' {
            assert w[k + 1] == '\r';
          }
        }
      }
    }
  }

  lemma {:induction false} CrlfWellEnded(s: string)
    ensures WellEnded(Crlf(s))
    decreases |s|
  {
    if s != [] {
      if Text.IsPrefix("\r\n", s) {
        CrlfWellEnded(s[2..]);
        assert ("\r\n" + Crlf(s[2..]))[2..] == Crlf(s[2..]);
      } else if s[0] == '\r' || s[0] == '\n' {
        CrlfWellEnded(s[1..]);
        assert ("\r\n" + Crlf(s[1..]))[2..] == Crlf(s[1..]);
      } else {
        CrlfWellEnded(s[1..]);
        assert ([s[0]] + Crlf(s[1..]))[1..] == Crlf(s[1..]);
      }
    }
  }

  /** Text that is already well ended is its own normal form. */
  lemma {:induction false} CrlfFixes(w: string)
    requires WellEnded(w)
    ensures Crlf(w) == w
    decreases |w|
  {
    if w != [] {
      if w[0] == '\r' {
        assert Text.IsPrefix("\r\n", w);
        CrlfFixes(w[2..]);
        assert w == "\r\n" + w[2..];
      } else {
        CrlfFixes(w[1..]);
        assert w == [w[0]] + w[1..];
      }
    }
  }

  lemma {:induction false} CrlfNoBreak(s: string)
    requires NoBreak(s)
    ensures Crlf(s) == s
    decreases |s|
  {
    if s != [] {
      CrlfNoBreak(s[1..]);
      assert s == [s[0]] + s[1..];
    }
  }

  /** The three passes of `normalize_body` compute `Crlf`. */
  lemma {:induction false} NormalizeIsCrlf(s: string)
    ensures Text.Replace(Text.Replace(Text.Replace(s, "\r\n", "\n"), "\r", "\n"), "\n", "\r\n") == Crlf(s)
    decreases |s|
  {
    if s != [] {
      var n := if Text.IsPrefix("\r\n", s) then 2 else 1;
      var t := s[n..];
      NormalizeIsCrlf(t);
      var r1 := Text.Replace(t, "\r\n", "\n");
      var r2 := Text.Replace(r1, "\r", "\n");
      assert s == [s[0]] + s[1..];
      Text.ReplaceHead(s[0], s[1..], "\r\n", "\n");
      if Text.IsPrefix("\r\n", s) {
        Text.ReplaceHead('\n', r1, "\r", "\n");
        Text.ReplaceHead('\n', r2, "\n", "\r\n");
        assert ("\n" + r2)[1..] == r2;
      } else {
        var c := if s[0] == '\r' || s[0] == '\n' then '\n' else s[0];
        Text.ReplaceHead(s[0], r1, "\r", "\n");
        Text.ReplaceHead(c, r2, "\n", "\r\n");
        assert ([c] + r2)[1..] == r2;
      }
    }
  }

  /** `normalize_body`: CR LF to LF, then CR to LF, then LF to CR LF. Every
      line break becomes one CR LF; nothing lone is left; text without
      breaks comes back unchanged. */
  function NormalizeBody(body: string): (r: string)
    ensures r == Crlf(body)
    ensures NoLoneBreak(r)
    ensures NoBreak(body) ==> r == body
  {
    NormalizeIsCrlf(body);
    CrlfWellEnded(body);
    WellEndedIff(Crlf(body));
    assert NoBreak(body) ==> Crlf(body) == body by {
      if NoBreak(body) { CrlfNoBreak(body); }
    }
    Text.Replace(Text.Replace(Text.Replace(body, "\r\n", "\n"), "\r", "\n"), "\n", "\r\n")
  }

  /** Normalising twice is normalising once. */
  lemma NormalizeIdempotent(body: string)
    ensures NormalizeBody(NormalizeBody(body)) == NormalizeBody(body)
  {
    CrlfWellEnded(body);
    CrlfFixes(Crlf(body));
  }

  // -------------------------------------------------------------------
  // VBScript string literals
  // -------------------------------------------------------------------

  /** What a line break becomes inside the body literal: close the string,
      append vbCrLf, open the next string. */
  const Joiner := "\" & vbCrLf & \""

  /** `to.replace("\"", "\"\"")`, used for the recipient and the subject. */
  function VbsEscape(s: string): string {
    Text.Replace(s, "\"", "\"\"")
  }

  /** The body's escaping: quotes doubled, then CR LF and lone LF made
      joiners. */
  function VbsEscapeBody(b: string): string {
    JoinLf(JoinCrlf(DoubleQuotes(b)))
  }

  function DoubleQuotes(x: string): string { Text.Replace(x, "\"", "\"\"") }
  function JoinCrlf(x: string): string { Text.Replace(x, "\r\n", Joiner) }
  function JoinLf(x: string): string { Text.Replace(x, "\n", Joiner) }

  /** The value VBScript reads from the inside of a string literal in this
      fragment: `""` is one quote and a joiner is CR LF. */
  function VbsRead(e: string): string
    decreases |e|
  {
    if e == [] then []
    else if Text.IsPrefix(Joiner, e) then "\r\n" + VbsRead(e[|Joiner|..])
    else if Text.IsPrefix("\"\"", e) then "\"" + VbsRead(e[2..])
    else [e[0]] + VbsRead(e[1..])
  }

  /** The inside of a literal that VBScript accepts: a quote only as `""`
      or inside a joiner, and no line break (a VBScript string cannot span
      lines). */
  predicate LiteralBody(e: string)
    decreases |e|
  {
    if e == [] then true
    else if Text.IsPrefix(Joiner, e) then LiteralBody(e[|Joiner|..])
    else if Text.IsPrefix("\"\"", e) then LiteralBody(e[2..])
    else e[0] != '"' && e[0] != '\r' && e[0] != '\n' && LiteralBody(e[1..])
  }

  /** A doubled quote reads as one quote, and is not a joiner. */
  lemma ReadQuotes(x: string)
    ensures VbsRead("\"\"" + x) == "\"" + VbsRead(x)
    ensures LiteralBody("\"\"" + x) == LiteralBody(x)
  {
    assert !Text.IsPrefix(Joiner, "\"\"" + x) by { assert ("\"\"" + x)[1] != Joiner[1]; }
    assert ("\"\"" + x)[..2] == "\"\"" && ("\"\"" + x)[2..] == x;
  }

  /** Any other character reads as itself. */
  lemma ReadPlain(c: char, x: string)
    requires c != '"'
    ensures VbsRead([c] + x) == [c] + VbsRead(x)
    ensures LiteralBody([c] + x) == (c != '\r' && c != '\n' && LiteralBody(x))
  {
    assert ([c] + x)[1..] == x;
  }

  lemma ReadJoiner(x: string)
    ensures VbsRead(Joiner + x) == "\r\n" + VbsRead(x)
    ensures LiteralBody(Joiner + x) == LiteralBody(x)
  {
    assert (Joiner + x)[..|Joiner|] == Joiner && (Joiner + x)[|Joiner|..] == x;
  }

  /** The recipient and the subject read back exactly from their literals,
      and make a valid literal exactly when they hold no line break. */
  lemma {:induction false} VbsEscapeReadsBack(s: string)
    ensures VbsRead(VbsEscape(s)) == s
    ensures LiteralBody(VbsEscape(s)) <==> NoBreak(s)
    decreases |s|
  {
    if s != [] {
      VbsEscapeReadsBack(s[1..]);
      assert s == [s[0]] + s[1..];
      Text.ReplaceHead(s[0], s[1..], "\"", "\"\"");
      if s[0] == '"' {
        assert ([s[0]] + s[1..])[1..] == s[1..];
        ReadQuotes(VbsEscape(s[1..]));
      } else {
        ReadPlain(s[0], VbsEscape(s[1..]));
      }
      assert NoBreak(s) <==> s[0] != '\r' && s[0] != '\n' && NoBreak(s[1..]) by {
        if NoBreak(s[1..]) && s[0] != '\r' && s[0] != '\n' {
          forall k | 0 <= k < |s| ensures s[k] != '\r' && s[k] != '\n' {
            if k > 0 { assert s[k] == s[1..][k - 1]; }
          }
        }
        if NoBreak(s) {
          forall k | 0 <= k < |s[1..]| ensures s[1..][k] != '\r' && s[1..][k] != '\n' {
            assert s[1..][k] == s[k + 1];
          }
        }
      }
    }
  }

  /** The body's escaping in one pass. */
  function EscapeBodyRef(b: string): string
    decreases |b|
  {
    if b == [] then []
    else if b[0] == '"' then "\"\"" + EscapeBodyRef(b[1..])
    else if Text.IsPrefix("\r\n", b) then Joiner + EscapeBodyRef(b[2..])
    else if b[0] == '\n' then Joiner + EscapeBodyRef(b[1..])
    else [b[0]] + EscapeBodyRef(b[1..])
  }

  /** The joiner and a doubled quote hold neither CR nor LF. */
  lemma SkipJoinerAndQuotes(x: string)
    ensures JoinCrlf(Joiner + x) == Joiner + JoinCrlf(x) && JoinLf(Joiner + x) == Joiner + JoinLf(x)
    ensures JoinCrlf("\"\"" + x) == "\"\"" + JoinCrlf(x) && JoinLf("\"\"" + x) == "\"\"" + JoinLf(x)
  {
    Text.ReplaceSkip(Joiner, x, "\r\n", Joiner);
    Text.ReplaceSkip(Joiner, x, "\n", Joiner);
    Text.ReplaceSkip("\"\"", x, "\r\n", Joiner);
    Text.ReplaceSkip("\"\"", x, "\n", Joiner);
  }

  lemma EscapeQuoteHead(t: string)
    ensures VbsEscapeBody("\"" + t) == "\"\"" + VbsEscapeBody(t)
  {
    Text.ReplaceHead('"', t, "\"", "\"\"");
    assert ("\"" + t)[1..] == t;
    SkipJoinerAndQuotes(DoubleQuotes(t));
    SkipJoinerAndQuotes(JoinCrlf(DoubleQuotes(t)));
  }

  lemma EscapeCrlfHead(t: string)
    ensures VbsEscapeBody("\r\n" + t) == Joiner + VbsEscapeBody(t)
  {
    var d := DoubleQuotes(t);
    assert "\r\n" + t == ['\r'] + ("\n" + t);
    Text.ReplaceHead('\r', "\n" + t, "\"", "\"\"");
    Text.ReplaceHead('\n', t, "\"", "\"\"");
    assert ("\n" + t)[1..] == t;
    assert DoubleQuotes("\r\n" + t) == ['\r'] + ("\n" + d);
    Text.ReplaceHead('\r', "\n" + d, "\r\n", Joiner);
    assert (['\r'] + ("\n" + d))[..2] == "\r\n" && (['\r'] + ("\n" + d))[2..] == d;
    SkipJoinerAndQuotes(JoinCrlf(d));
  }

  lemma EscapeLfHead(t: string)
    ensures VbsEscapeBody("\n" + t) == Joiner + VbsEscapeBody(t)
  {
    var d := DoubleQuotes(t);
    var j := JoinCrlf(d);
    LfPassesQuotes(t);
    LfPassesCrlf(d);
    LfJoins(j);
  }

  lemma LfPassesQuotes(t: string)
    ensures DoubleQuotes("\n" + t) == "\n" + DoubleQuotes(t)
  {
    Text.ReplaceHead('\n', t, "\"", "\"\"");
  }

  lemma LfPassesCrlf(d: string)
    ensures JoinCrlf("\n" + d) == "\n" + JoinCrlf(d)
  {
    Text.ReplaceHead('\n', d, "\r\n", Joiner);
    assert ("\n" + d)[0] != "\r\n"[0];
    assert ("\n" + d)[1..] == d;
  }

  lemma LfJoins(j: string)
    ensures JoinLf("\n" + j) == Joiner + JoinLf(j)
  {
    Text.ReplaceHead('\n', j, "\n", Joiner);
    assert ("\n" + j)[1..] == j;
  }

  /** Doubling quotes keeps the first character unless it is a quote. */
  lemma DoubleHead(x: string)
    requires x != [] && x[0] != '"'
    ensures DoubleQuotes(x) != [] && DoubleQuotes(x)[0] == x[0]
  {
    assert x == [x[0]] + x[1..];
    Text.ReplaceHead(x[0], x[1..], "\"", "\"\"");
  }

  lemma EscapeOtherHead(c: char, t: string)
    requires c != '"' && c != '\n'
    requires c == '\r' ==> t == [] || t[0] != '\n'
    ensures VbsEscapeBody([c] + t) == [c] + VbsEscapeBody(t)
  {
    var d := DoubleQuotes(t);
    Text.ReplaceHead(c, t, "\"", "\"\"");
    assert ([c] + t)[1..] == t;
    assert !Text.IsPrefix("\r\n", [c] + d) by {
      if c != '\r' {
        assert ([c] + d)[0] != "\r\n"[0];
      } else if t == [] {
        assert d == [];
        assert |[c] + d| < 2;
      } else if t[0] == '"' {
        assert t == "\"" + t[1..];
        Text.ReplaceHead('"', t[1..], "\"", "\"\"");
        assert ([c] + d)[1] == d[0] == '"' != "\r\n"[1];
      } else {
        DoubleHead(t);
        assert ([c] + d)[1] == d[0] == t[0] != "\r\n"[1];
      }
    }
    Text.ReplaceHead(c, d, "\r\n", Joiner);
    assert ([c] + d)[1..] == d;
    Text.ReplaceHead(c, JoinCrlf(d), "\n", Joiner);
    assert ([c] + JoinCrlf(d))[0] != "\n"[0];
  }

  /** The three passes of the body's escaping compute `EscapeBodyRef`. */
  lemma {:induction false} EscapeBodyIsRef(b: string)
    ensures VbsEscapeBody(b) == EscapeBodyRef(b)
    decreases |b|
  {
    if b != [] {
      if b[0] == '"' {
        EscapeBodyIsRef(b[1..]);
        EscapeQuoteHead(b[1..]);
        assert b == "\"" + b[1..];
      } else if Text.IsPrefix("\r\n", b) {
        EscapeBodyIsRef(b[2..]);
        EscapeCrlfHead(b[2..]);
        assert b == "\r\n" + b[2..];
      } else if b[0] == '\n' {
        EscapeBodyIsRef(b[1..]);
        EscapeLfHead(b[1..]);
        assert b == "\n" + b[1..];
      } else {
        EscapeBodyIsRef(b[1..]);
        if b[0] == '\r' && b[1..] != [] { assert b[1..][0] == b[1]; }
        EscapeOtherHead(b[0], b[1..]);
        assert b == [b[0]] + b[1..];
      }
    }
  }

  /** A well-ended body reads back exactly from its literal, and the
      literal is valid. */
  lemma {:induction false} EscapeBodyReadsBack(b: string)
    requires WellEnded(b)
    ensures VbsRead(EscapeBodyRef(b)) == b
    ensures LiteralBody(EscapeBodyRef(b))
    decreases |b|
  {
    if b != [] {
      if b[0] == '"' {
        EscapeBodyReadsBack(b[1..]);
        ReadQuotes(EscapeBodyRef(b[1..]));
        assert b == [b[0]] + b[1..];
      } else if b[0] == '\r' {
        EscapeBodyReadsBack(b[2..]);
        ReadJoiner(EscapeBodyRef(b[2..]));
        assert b == "\r\n" + b[2..];
      } else {
        EscapeBodyReadsBack(b[1..]);
        ReadPlain(b[0], EscapeBodyRef(b[1..]));
        assert b == [b[0]] + b[1..];
      }
    }
  }

  /** The body as the script sees it: normalised, escaped, and read back
      by VBScript as the normalised body, inside a valid literal. */
  function BodyLiteral(body: string): (e: string)
    ensures VbsRead(e) == NormalizeBody(body)
    ensures LiteralBody(e)
  {
    var n := NormalizeBody(body);
    EscapeBodyIsRef(n);
    CrlfWellEnded(body);
    EscapeBodyReadsBack(n);
    VbsEscapeBody(n)
  }

  // -------------------------------------------------------------------
  // mailto arguments
  // -------------------------------------------------------------------

  /** `urlencoding::encode`: nothing beyond the unreserved bytes is kept. */
  function UrlEncode(s: string): (q: string)
    ensures PercentDecodes(q, s)
    ensures '?' !in q && '&' !in q && '\'' !in q
  {
    Percent.DecodeEncode(s, {});
    var q := Percent.Encode(s, {});
    QueryCharsEncoded();
    q
  }

  lemma QueryCharsEncoded()
    ensures !Percent.UrlChar('?', {}) && !Percent.UrlChar('&', {}) && !Percent.UrlChar('\'', {})
  {
  }

  predicate PercentDecodes(q: string, s: string) {
    Percent.PercentDecode(q) == Some(Percent.Utf8(s))
  }

  /** `m_arg` of `try_outlook_exe`: the recipient is left out when empty and
      is otherwise inserted as it is, not encoded. */
  function MArg(to: string, subject: string, body: string): (m: string)
    ensures to == "" ==> Text.IsPrefix("mailto:?subject=", m)
  {
    if to == "" then "mailto:?subject=" + UrlEncode(subject) + "&body=" + UrlEncode(body)
    else "mailto:" + to + "?subject=" + UrlEncode(subject) + "&body=" + UrlEncode(body)
  }

  /** The fallback mailto of `create_outlook_draft`: all three parts
      encoded. */
  function FallbackMailto(to: string, subject: string, body: string): (m: string)
    ensures '\'' !in m
  {
    "mailto:" + UrlEncode(to) + "?subject=" + UrlEncode(subject) + "&body=" + UrlEncode(body)
  }

  /** The PowerShell command that opens it: single quotes doubled inside a
      single-quoted string. */
  function StartProcess(mailto: string): (cmd: string)
    ensures '\'' !in mailto ==> cmd == "Start-Process '" + mailto + "'"
  {
    Text.ContainsChar(mailto, '\'');
    "Start-Process '" + Text.Replace(mailto, "'", "''") + "'"
  }

  /** `s` split at the first `c`. */
  function SplitFirst(s: string, c: char): (r: Option<(string, string)>)
    ensures r.None? <==> c !in s
    ensures r.Some? ==> s == r.value.0 + [c] + r.value.1 && c !in r.value.0
    decreases |s|
  {
    if s == [] then None
    else if s[0] == c then Some(([], s[1..]))
    else match SplitFirst(s[1..], c)
      case None => None
      case Some((a, b)) => Some(([s[0]] + a, b))
  }

  lemma {:induction false} SplitFirstOf(a: string, c: char, b: string)
    requires c !in a
    ensures SplitFirst(a + [c] + b, c) == Some((a, b))
    decreases |a|
  {
    if a == [] {
      assert a + [c] + b == [c] + b;
    } else {
      SplitFirstOf(a[1..], c, b);
      assert a[0] in a;
      assert (a + [c] + b)[0] == a[0] && (a + [c] + b)[1..] == a[1..] + [c] + b;
      assert [a[0]] + a[1..] == a;
    }
  }

  /** A mailto URL read back as its raw recipient, subject and body parts:
      the reference the two builders are checked against. */
  function ParseMailto(m: string): Option<(string, string, string)> {
    if !Text.IsPrefix("mailto:", m) then None
    else match SplitFirst(m[7..], '?')
      case None => None
      case Some((to, query)) =>
        match ParseQuery(query)
        case None => None
        case Some((subject, body)) => Some((to, subject, body))
  }

  /** `subject=<s>&body=<b>` read back as (s, b). */
  function ParseQuery(query: string): Option<(string, string)> {
    if !Text.IsPrefix("subject=", query) then None
    else match SplitFirst(query[8..], '&')
      case None => None
      case Some((subject, rest)) =>
        if !Text.IsPrefix("body=", rest) then None else Some((subject, rest[5..]))
  }

  lemma QueryParts(s: string, b: string)
    requires '&' !in s
    ensures ParseQuery("subject=" + s + "&body=" + b) == Some((s, b))
  {
    var q := "subject=" + s + "&body=" + b;
    assert q == "subject=" + (s + ['&'] + ("body=" + b));
    assert q[..8] == "subject=" && q[8..] == s + ['&'] + ("body=" + b);
    SplitFirstOf(s, '&', "body=" + b);
    assert ("body=" + b)[..5] == "body=" && ("body=" + b)[5..] == b;
  }

  lemma ParseParts(to: string, s: string, b: string)
    requires '?' !in to && '&' !in s
    ensures ParseMailto("mailto:" + to + "?subject=" + s + "&body=" + b) == Some((to, s, b))
  {
    var q := "subject=" + s + "&body=" + b;
    var m := "mailto:" + to + "?subject=" + s + "&body=" + b;
    assert m == "mailto:" + (to + ['?'] + q);
    assert m[..7] == "mailto:" && m[7..] == to + ['?'] + q;
    SplitFirstOf(to, '?', q);
    QueryParts(s, b);
  }

  /** The `/m` argument parses back to the recipient as given and to the
      subject and body bytes, provided the recipient holds no '?'; with no
      recipient, the recipient part is empty. */
  lemma MArgParses(to: string, subject: string, body: string)
    requires '?' !in to
    ensures var p := ParseMailto(MArg(to, subject, body));
            && p.Some? && p.value.0 == to
            && PercentDecodes(p.value.1, subject) && PercentDecodes(p.value.2, body)
  {
    var s, b := UrlEncode(subject), UrlEncode(body);
    if to == "" {
      EmptyRecipient();
    }
    assert MArg(to, subject, body) == "mailto:" + to + "?subject=" + s + "&body=" + b;
    ParseParts(to, s, b);
  }

  lemma EmptyRecipient()
    ensures "mailto:" + "" + "?subject=" == "mailto:?subject="
  {
  }

  /** The fallback URL parses back to all three parts, whatever they hold. */
  lemma FallbackParses(to: string, subject: string, body: string)
    ensures var p := ParseMailto(FallbackMailto(to, subject, body));
            && p.Some? && PercentDecodes(p.value.0, to)
            && PercentDecodes(p.value.1, subject) && PercentDecodes(p.value.2, body)
  {
    ParseParts(UrlEncode(to), UrlEncode(subject), UrlEncode(body));
  }

  /** Conversely, a recipient holding '?' never comes back: the `/m`
      argument cuts it at its first '?' and reads the rest as the query. */
  lemma MArgCutsRecipient(to: string, subject: string, body: string)
    requires '?' in to
    ensures var p := ParseMailto(MArg(to, subject, body));
            p.None? || p.value.0 != to
  {
  }

  // -------------------------------------------------------------------
  // the command
  // -------------------------------------------------------------------

  datatype Route = Com | OutlookExe | DefaultHandler

  /** `create_outlook_draft`: COM first, then outlook.exe, then the default
      mail handler; only the last can fail, with its launch error. */
  function CreateDraft(comOk: bool, exeOk: bool, spawn: Result<Unit, string>): (r: (Route, Result<Unit, string>))
    ensures comOk ==> r == (Com, Ok(Unit))
    ensures !comOk && exeOk ==> r == (OutlookExe, Ok(Unit))
    ensures r.1.Err? <==> !comOk && !exeOk && spawn.Err?
    ensures r.1.Err? ==> r.1.error == "Failed to launch mail handler: " + spawn.error
  {
    if comOk then (Com, Ok(Unit))
    else if exeOk then (OutlookExe, Ok(Unit))
    else match spawn
      case Ok(_) => (DefaultHandler, Ok(Unit))
      case Err(e) => (DefaultHandler, Err("Failed to launch mail handler: " + e))
  }
}
