/** Character classes, trimming, splitting, searching and ordering on strings. */
module Text {

  /** Python's `str.isspace` for one character: the Unicode White_Space set
      plus the information separators U+001C..U+001F. */
  predicate IsPySpace(c: char) {
    var n := c as int;
    n == 0x20 || 0x09 <= n <= 0x0D || 0x1C <= n <= 0x1F || n == 0x85 || n == 0xA0
    || n == 0x1680 || 0x2000 <= n <= 0x200A || n == 0x2028 || n == 0x2029
    || n == 0x202F || n == 0x205F || n == 0x3000
  }

  /** Rust's `char::is_whitespace`: the Unicode White_Space set. */
  predicate IsRustSpace(c: char) {
    var n := c as int;
    n == 0x20 || 0x09 <= n <= 0x0D || n == 0x85 || n == 0xA0
    || n == 0x1680 || 0x2000 <= n <= 0x200A || n == 0x2028 || n == 0x2029
    || n == 0x202F || n == 0x205F || n == 0x3000
  }

  /** The number of leading characters of `s` that satisfy `ws`. */
  function LeadingCount(s: string, ws: char -> bool): (n: nat)
    ensures n <= |s|
    ensures forall k :: 0 <= k < n ==> ws(s[k])
    ensures n < |s| ==> !ws(s[n])
  {
    if |s| == 0 || !ws(s[0]) then 0 else 1 + LeadingCount(s[1..], ws)
  }

  /** The number of trailing characters of `s` that satisfy `ws`. */
  function TrailingCount(s: string, ws: char -> bool): (n: nat)
    ensures n <= |s|
    ensures forall k :: |s| - n <= k < |s| ==> ws(s[k])
    ensures n < |s| ==> !ws(s[|s| - n - 1])
  {
    if |s| == 0 || !ws(s[|s| - 1]) then 0 else 1 + TrailingCount(s[..|s| - 1], ws)
  }

  /** `s` without its leading and trailing `ws` characters (Python `strip`,
      Rust `trim`, depending on the class passed). */
  function Strip(s: string, ws: char -> bool): (r: string)
    ensures |r| <= |s|
    ensures r != [] ==> !ws(r[0]) && !ws(r[|r| - 1])
    ensures r == [] <==> forall k :: 0 <= k < |s| ==> ws(s[k])
    ensures forall c :: c in r ==> c in s
    ensures (|s| == 0 || (!ws(s[0]) && !ws(s[|s| - 1]))) ==> r == s
  {
    var i := LeadingCount(s, ws);
    var t := s[i..];
    var r := t[..|t| - TrailingCount(t, ws)];
    assert r == [] ==> i == |s| by {
      assert i < |s| ==> t[0] == s[i] && !ws(t[0]);
    }
    assert forall c :: c in r ==> c in s by {
      forall c | c in r ensures c in s {
        var k :| 0 <= k < |r| && r[k] == c;
        assert s[i + k] == c;
      }
    }
    r
  }

  /** Stripping twice is stripping once. */
  lemma StripIdempotent(s: string, ws: char -> bool)
    ensures Strip(Strip(s, ws), ws) == Strip(s, ws)
  {
  }

  /** `p` is a prefix of `s`. */
  predicate IsPrefix(p: string, s: string) {
    |p| <= |s| && s[..|p|] == p
  }

  /** `p` is a suffix of `s`. */
  predicate IsSuffix(p: string, s: string) {
    |p| <= |s| && s[|s| - |p|..] == p
  }

  /** `sub` occurs in `s` as a contiguous substring (Rust `str::contains`,
      Python `in`). */
  predicate Contains(s: string, sub: string)
    decreases |s|
  {
    IsPrefix(sub, s) || (|s| > 0 && Contains(s[1..], sub))
  }

  /** `sub` occurs in `s` starting at index `i`. */
  predicate OccursAt(s: string, sub: string, i: int) {
    0 <= i && i + |sub| <= |s| && s[i..i + |sub|] == sub
  }

  /** `sub` occurs in `s` exactly when it occurs at some index. */
  lemma {:induction false} ContainsAt(s: string, sub: string)
    ensures Contains(s, sub) <==> exists i :: OccursAt(s, sub, i)
    decreases |s|
  {
    if |s| > 0 {
      ContainsAt(s[1..], sub);
      if IsPrefix(sub, s) {
        assert OccursAt(s, sub, 0);
      } else if exists i :: OccursAt(s, sub, i) {
        var i :| OccursAt(s, sub, i);
        assert i != 0;
        assert OccursAt(s[1..], sub, i - 1) by {
          assert s[1..][i - 1..i - 1 + |sub|] == s[i..i + |sub|];
        }
      }
      if Contains(s[1..], sub) {
        var i :| OccursAt(s[1..], sub, i);
        assert OccursAt(s, sub, i + 1) by {
          assert s[1..][i..i + |sub|] == s[i + 1..i + 1 + |sub|];
        }
      }
    } else {
      if exists i :: OccursAt(s, sub, i) {
        var i :| OccursAt(s, sub, i);
        assert i == 0 && sub == [];
        assert IsPrefix(sub, s);
      }
      if IsPrefix(sub, s) {
        assert OccursAt(s, sub, 0);
      }
    }
  }

  /** `s.replace(pat, rep)`, in Rust and Python alike: the occurrences of
      `pat` found left to right, without overlapping, become `rep`. */
  function Replace(s: string, pat: string, rep: string): (r: string)
    requires pat != ""
    ensures !Contains(s, pat) ==> r == s
    ensures rep == pat ==> r == s
    decreases |s|
  {
    if s == [] then []
    else if IsPrefix(pat, s) then
      assert rep == pat ==> rep + s[|pat|..] == s;
      rep + Replace(s[|pat|..], pat, rep)
    else
      assert s == [s[0]] + s[1..];
      [s[0]] + Replace(s[1..], pat, rep)
  }

  /** A one-character string occurs exactly where the character does. */
  lemma {:induction false} ContainsChar(s: string, c: char)
    ensures Contains(s, [c]) <==> c in s
    decreases |s|
  {
    if s != [] {
      ContainsChar(s[1..], c);
      assert s == [s[0]] + s[1..];
    }
  }

  /** One step of `Replace` on a string with a known first character. */
  lemma ReplaceHead(c: char, x: string, pat: string, rep: string)
    requires pat != ""
    ensures Replace([c] + x, pat, rep)
            == if IsPrefix(pat, [c] + x) then rep + Replace(([c] + x)[|pat|..], pat, rep) else [c] + Replace(x, pat, rep)
  {
    assert ([c] + x)[1..] == x;
  }

  /** A prefix in which the pattern cannot start passes through `Replace`
      untouched. */
  lemma {:induction false} ReplaceSkip(a: string, x: string, pat: string, rep: string)
    requires pat != ""
    requires forall k :: 0 <= k < |a| ==> a[k] != pat[0]
    ensures Replace(a + x, pat, rep) == a + Replace(x, pat, rep)
  {
    if a != [] {
      var t := a[1..] + x;
      assert a + x == [a[0]] + t;
      assert !IsPrefix(pat, [a[0]] + t) by { assert ([a[0]] + t)[0] != pat[0]; }
      calc {
        Replace(a + x, pat, rep);
        { ReplaceHead(a[0], t, pat, rep); }
        [a[0]] + Replace(t, pat, rep);
        { ReplaceSkip(a[1..], x, pat, rep); }
        [a[0]] + (a[1..] + Replace(x, pat, rep));
        { assert a == [a[0]] + a[1..]; }
        a + Replace(x, pat, rep);
      }
    } else {
      assert a + x == x;
    }
  }

  /** A string in which the pattern cannot start is left as it is. */
  lemma ReplaceAbsent(s: string, pat: string, rep: string)
    requires pat != "" && pat[0] !in s
    ensures Replace(s, pat, rep) == s
  {
    ReplaceSkip(s, "", pat, rep);
    assert s + "" == s;
  }

  /** The first occurrence of the pattern, after a prefix in which it cannot
      start, is replaced. */
  lemma ReplaceAt(a: string, b: string, pat: string, rep: string)
    requires pat != "" && pat[0] !in a
    ensures Replace(a + pat + b, pat, rep) == a + rep + Replace(b, pat, rep)
  {
    ReplaceSkip(a, pat + b, pat, rep);
    assert a + pat + b == a + (pat + b);
    assert IsPrefix(pat, pat + b) && (pat + b)[|pat|..] == b;
  }

  /** `s` split at every character satisfying `isSep` (Python `str.split(sep)`,
      Rust `str::split(char)` when `isSep` is equality with one character). */
  function SplitWhere(s: string, isSep: char -> bool): (parts: seq<string>)
    ensures |parts| >= 1
    ensures forall p :: p in parts ==> forall c :: c in p ==> !isSep(c)
  {
    if |s| == 0 then [""]
    else
      var rest := SplitWhere(s[1..], isSep);
      if isSep(s[0]) then [""] + rest
      else
        var parts := [[s[0]] + rest[0]] + rest[1..];
        assert rest[0] in rest;
        forall p | p in parts
          ensures forall c :: c in p ==> !isSep(c)
        {
          if p != [s[0]] + rest[0] {
            assert p in rest;
          } else {
            assert forall c :: c in p ==> c == s[0] || c in rest[0];
          }
        }
        parts
  }

  /** A string without separators is its own single part. */
  lemma {:induction false} SplitWhereNone(a: string, isSep: char -> bool)
    requires forall i :: 0 <= i < |a| ==> !isSep(a[i])
    ensures SplitWhere(a, isSep) == [a]
  {
    if |a| > 0 {
      SplitWhereNone(a[1..], isSep);
      assert [a[0]] + a[1..] == a;
    }
  }

  /** A separator after a separator-free prefix ends the first part. */
  lemma {:induction false} SplitWhereCons(a: string, x: char, b: string, isSep: char -> bool)
    requires forall i :: 0 <= i < |a| ==> !isSep(a[i])
    requires isSep(x)
    ensures SplitWhere(a + [x] + b, isSep) == [a] + SplitWhere(b, isSep)
  {
    var s := a + [x] + b;
    if |a| == 0 {
      assert s[1..] == b;
    } else {
      assert s[1..] == a[1..] + [x] + b;
      SplitWhereCons(a[1..], x, b, isSep);
      assert [a[0]] + a[1..] == a;
    }
  }

  /** The first part of a split is a prefix of the string. */
  lemma {:induction false} SplitWhereFirstIsPrefix(s: string, isSep: char -> bool)
    ensures IsPrefix(SplitWhere(s, isSep)[0], s)
  {
    if |s| > 0 {
      SplitWhereFirstIsPrefix(s[1..], isSep);
      var rest := SplitWhere(s[1..], isSep);
      if !isSep(s[0]) {
        assert s[..|rest[0]| + 1] == [s[0]] + s[1..][..|rest[0]|];
      }
    }
  }

  /** Every part of a split occurs in the string. */
  lemma {:induction false} SplitWherePartsOccur(s: string, isSep: char -> bool)
    ensures forall p :: p in SplitWhere(s, isSep) ==> Contains(s, p)
  {
    if |s| == 0 {
      assert IsPrefix("", s);
    } else {
      SplitWherePartsOccur(s[1..], isSep);
      var rest := SplitWhere(s[1..], isSep);
      forall p | p in SplitWhere(s, isSep) ensures Contains(s, p) {
        if isSep(s[0]) {
          if p == "" { assert IsPrefix(p, s); } else { assert p in rest; }
        } else if p == [s[0]] + rest[0] {
          SplitWhereFirstIsPrefix(s[1..], isSep);
          assert s[..|p|] == [s[0]] + s[1..][..|rest[0]|];
          assert IsPrefix(p, s);
        } else {
          assert p in rest[1..];
          assert p in rest;
        }
      }
    }
  }

  /** `s` split at every occurrence of `sep`. */
  function Split(s: string, sep: char): (parts: seq<string>)
    ensures |parts| >= 1
    ensures forall p :: p in parts ==> sep !in p
  {
    SplitWhere(s, c => c == sep)
  }

  /** `Split` on a string free of `sep`, and on one with a first `sep`. */
  lemma SplitNone(a: string, sep: char)
    requires sep !in a
    ensures Split(a, sep) == [a]
  {
    SplitWhereNone(a, c => c == sep);
  }

  lemma SplitCons(a: string, b: string, sep: char)
    requires sep !in a
    ensures Split(a + [sep] + b, sep) == [a] + Split(b, sep)
  {
    SplitWhereCons(a, sep, b, c => c == sep);
  }

  /** The parts joined back with `sep` between consecutive ones. */
  function JoinWith(parts: seq<string>, sep: char): string
    requires |parts| >= 1
  {
    if |parts| == 1 then parts[0] else parts[0] + [sep] + JoinWith(parts[1..], sep)
  }

  /** Splitting at `sep` and joining with `sep` gives back the input. */
  lemma {:induction false} JoinSplit(s: string, sep: char)
    ensures JoinWith(Split(s, sep), sep) == s
  {
    if |s| > 0 {
      JoinSplit(s[1..], sep);
      var rest := Split(s[1..], sep);
      assert Split(s, sep) == SplitWhere(s, c => c == sep);
      assert rest == SplitWhere(s[1..], c => c == sep);
      if s[0] == sep {
        assert Split(s, sep) == [""] + rest;
        assert ([""] + rest)[1..] == rest;
      } else {
        var parts := [[s[0]] + rest[0]] + rest[1..];
        assert Split(s, sep) == parts;
        if |rest| == 1 {
          assert JoinWith(parts, sep) == [s[0]] + rest[0];
        } else {
          assert parts[1..] == rest[1..];
          assert JoinWith(parts, sep) == [s[0]] + rest[0] + [sep] + JoinWith(rest[1..], sep);
        }
      }
    }
  }

  /** Joining parts free of `sep` and splitting again gives the parts. */
  lemma {:induction false} SplitJoin(parts: seq<string>, sep: char)
    requires |parts| >= 1
    requires forall i :: 0 <= i < |parts| ==> sep !in parts[i]
    ensures Split(JoinWith(parts, sep), sep) == parts
  {
    if |parts| == 1 {
      SplitNone(parts[0], sep);
    } else {
      SplitJoin(parts[1..], sep);
      SplitCons(parts[0], JoinWith(parts[1..], sep), sep);
      assert parts == [parts[0]] + parts[1..];
    }
  }

  /** The parts of `s` between runs of `isSep` characters, dropping the empty
      ones (Python `[w for w in re.split(r"[...]+", s) if w]`). */
  function Words(s: string, isSep: char -> bool): (ws: seq<string>)
    ensures forall w :: w in ws ==> w != "" && forall c :: c in w ==> !isSep(c)
  {
    NonEmpty(SplitWhere(s, isSep))
  }

  /** The non-empty strings of `xs`, in order. */
  function NonEmpty(xs: seq<string>): (r: seq<string>)
    ensures forall w :: w in r <==> w in xs && w != ""
  {
    if |xs| == 0 then []
    else if xs[0] == "" then NonEmpty(xs[1..])
    else [xs[0]] + NonEmpty(xs[1..])
  }

  /** Every character of `s` mapped through `f`. */
  function MapChars(s: string, f: char -> char): (r: string)
    ensures |r| == |s|
    ensures forall k :: 0 <= k < |s| ==> r[k] == f(s[k])
  {
    if |s| == 0 then [] else [f(s[0])] + MapChars(s[1..], f)
  }

  /** Lexicographic order on code points; Rust's `str` ordering and the byte
      order of UTF-8, which SQLite's default collation uses. */
  predicate StrLt(a: string, b: string)
    decreases |a|
  {
    if |a| == 0 then |b| > 0
    else |b| > 0 && (a[0] < b[0] || (a[0] == b[0] && StrLt(a[1..], b[1..])))
  }

  /** The non-strict lexicographic order. */
  predicate StrLe(a: string, b: string) {
    !StrLt(b, a)
  }

  lemma {:induction false} StrLtIrreflexive(a: string)
    ensures !StrLt(a, a)
    decreases |a|
  {
    if |a| > 0 { StrLtIrreflexive(a[1..]); }
  }

  lemma {:induction false} StrLtTransitive(a: string, b: string, c: string)
    requires StrLt(a, b) && StrLt(b, c)
    ensures StrLt(a, c)
    decreases |a|
  {
    if |a| > 0 && a[0] == b[0] && b[0] == c[0] {
      StrLtTransitive(a[1..], b[1..], c[1..]);
    }
  }

  lemma {:induction false} StrLtTrichotomy(a: string, b: string)
    ensures a == b || StrLt(a, b) || StrLt(b, a)
    decreases |a|
  {
    if |a| > 0 && |b| > 0 && a[0] == b[0] {
      StrLtTrichotomy(a[1..], b[1..]);
      if a[1..] == b[1..] {
        assert a == [a[0]] + a[1..] && b == [b[0]] + b[1..];
      }
    }
  }

  lemma StrLtAsymmetric(a: string, b: string)
    requires StrLt(a, b)
    ensures !StrLt(b, a)
  {
    if StrLt(b, a) {
      StrLtTransitive(a, b, a);
      StrLtIrreflexive(a);
    }
  }

  /** Two strings each `StrLe` the other are equal. */
  lemma StrLeAntisymmetric(a: string, b: string)
    requires StrLe(a, b) && StrLe(b, a)
    ensures a == b
  {
    StrLtTrichotomy(a, b);
  }

  /** `StrLe` is a total preorder (indeed a total order). */
  lemma StrLeTotal(a: string, b: string)
    ensures StrLe(a, b) || StrLe(b, a)
  {
    if StrLt(a, b) { StrLtAsymmetric(a, b); }
  }

  lemma StrLeTransitive(a: string, b: string, c: string)
    requires StrLe(a, b) && StrLe(b, c)
    ensures StrLe(a, c)
  {
    if StrLt(c, a) {
      StrLtTrichotomy(a, b);
      StrLtTrichotomy(b, c);
      if a == b {
      } else if StrLt(a, b) {
        if b == c { } else { StrLtTransitive(a, b, c); StrLtAsymmetric(a, c); }
      }
    }
  }
}
