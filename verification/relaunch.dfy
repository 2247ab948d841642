/** The version comparison and the copy decision of the local relaunch
    (`src-tauri/src/relaunch.rs`). */
module Relaunch {
  import opened Wrappers
  import Text

  /** 2^64: `u64` values lie below it. */
  const U64Limit: nat := 0x1_0000_0000_0000_0000

  predicate IsDigit(c: char) {
    '0' <= c <= '9'
  }

  predicate AllDigits(s: string) {
    forall i :: 0 <= i < |s| ==> IsDigit(s[i])
  }

  /** The decimal value of a digit string. */
  function DigitsValue(s: string): (v: nat)
    requires AllDigits(s)
    ensures |s| == 0 ==> v == 0
    ensures |s| > 0 ==> v == DigitsValue(s[..|s| - 1]) * 10 + (s[|s| - 1] as int - '0' as int)
  {
    if |s| == 0 then 0 else DigitsValue(s[..|s| - 1]) * 10 + (s[|s| - 1] as int - '0' as int)
  }

  /** Every digit string of length n denotes a value below 10^n. */
  function Pow10(n: nat): (p: nat)
    ensures p >= 1
  {
    if n == 0 then 1 else 10 * Pow10(n - 1)
  }

  lemma {:induction false} DigitsValueBound(s: string)
    requires AllDigits(s)
    ensures DigitsValue(s) < Pow10(|s|)
    decreases |s|
  {
    if |s| > 0 {
      DigitsValueBound(s[..|s| - 1]);
    }
  }

  /** `str::parse::<u64>`: an optional leading '+', then one or more ASCII
      digits whose value fits in 64 bits; anything else is an error. */
  function ParseU64(s: string): (r: Option<nat>)
    ensures r.Some? ==> r.value < U64Limit
    ensures r.Some? ==> |s| > 0 && s != "+"
    ensures r.Some? ==> var d := if s[0] == '+' then s[1..] else s; AllDigits(d) && r.value == DigitsValue(d)
    ensures AllDigits(s) && |s| > 0 && DigitsValue(s) < U64Limit ==> r == Some(DigitsValue(s))
  {
    if |s| == 0 || s == "+" then None
    else
      var d := if s[0] == '+' then s[1..] else s;
      if AllDigits(d) && DigitsValue(d) < U64Limit then Some(DigitsValue(d)) else None
  }

  /** `parse_version`: the '.'-separated components, each its `u64` value or 0. */
  function ParseVersion(s: string): (v: seq<nat>)
    ensures |v| == |Text.Split(s, '.')| >= 1
    ensures forall i :: 0 <= i < |v| ==> v[i] == ParseU64(Text.Split(s, '.')[i]).GetOr(0)
  {
    var parts := Text.Split(s, '.');
    seq(|parts|, i requires 0 <= i < |parts| => ParseU64(parts[i]).GetOr(0))
  }

  /** Component i, reading a missing one as 0 (`unwrap_or(&0)`). */
  function At(v: seq<nat>, i: int): nat {
    if 0 <= i < |v| then v[i] else 0
  }

  function Max(a: int, b: int): int {
    if a < b then b else a
  }

  /** The loop of `version_ge` from component i to n. */
  function GeFrom(va: seq<nat>, vb: seq<nat>, i: nat, n: nat): bool
    decreases n - i
  {
    if i >= n then true
    else if At(va, i) > At(vb, i) then true
    else if At(va, i) < At(vb, i) then false
    else GeFrom(va, vb, i + 1, n)
  }

  function ComponentsGe(va: seq<nat>, vb: seq<nat>): bool {
    GeFrom(va, vb, 0, Max(|va|, |vb|))
  }

  /** `version_ge`. */
  function VersionGe(a: string, b: string): bool {
    ComponentsGe(ParseVersion(a), ParseVersion(b))
  }

  /** Components agree below k. */
  predicate AgreeBelow(va: seq<nat>, vb: seq<nat>, k: int) {
    forall j :: 0 <= j < k ==> At(va, j) == At(vb, j)
  }

  /** The independent reading: va >= vb when the components agree up to n,
      or the first component where they differ is larger in va. */
  predicate FirstDiffGe(va: seq<nat>, vb: seq<nat>, n: nat) {
    AgreeBelow(va, vb, n)
    || exists k :: 0 <= k < n && AgreeBelow(va, vb, k) && At(va, k) > At(vb, k)
  }

  /** Where the first disagreement lies, it alone decides. */
  lemma FirstDiffAt(va: seq<nat>, vb: seq<nat>, n: nat, k: nat)
    requires k < n && AgreeBelow(va, vb, k) && At(va, k) != At(vb, k)
    ensures FirstDiffGe(va, vb, n) <==> At(va, k) > At(vb, k)
  {
    assert !AgreeBelow(va, vb, n) by { assert At(va, k) != At(vb, k); }
    assert forall k' :: 0 <= k' < n && AgreeBelow(va, vb, k') && At(va, k') != At(vb, k') ==> k' == k;
  }

  lemma {:induction false} GeFromFirstDiff(va: seq<nat>, vb: seq<nat>, i: nat, n: nat)
    requires i <= n
    requires AgreeBelow(va, vb, i)
    ensures GeFrom(va, vb, i, n) <==> FirstDiffGe(va, vb, n)
    decreases n - i
  {
    if i < n {
      if At(va, i) != At(vb, i) {
        FirstDiffAt(va, vb, n, i);
      } else {
        assert AgreeBelow(va, vb, i + 1);
        GeFromFirstDiff(va, vb, i + 1, n);
      }
    }
  }

  /** `version_ge` decides by the first differing component, missing
      components counting as 0. */
  lemma ComponentsGeIsFirstDiff(va: seq<nat>, vb: seq<nat>)
    ensures ComponentsGe(va, vb) <==> FirstDiffGe(va, vb, Max(|va|, |vb|))
  {
    GeFromFirstDiff(va, vb, 0, Max(|va|, |vb|));
  }

  /** Equal versions compare as >=. */
  lemma {:induction false} VersionGeReflexive(a: string)
    ensures VersionGe(a, a)
  {
    var v := ParseVersion(a);
    ComponentsGeIsFirstDiff(v, v);
  }

  /** Any two versions are comparable. */
  lemma {:induction false} VersionGeTotal(a: string, b: string)
    ensures VersionGe(a, b) || VersionGe(b, a)
  {
    var va, vb := ParseVersion(a), ParseVersion(b);
    var n := Max(|va|, |vb|);
    assert Max(|vb|, |va|) == n;
    ComponentsGeIsFirstDiff(va, vb);
    ComponentsGeIsFirstDiff(vb, va);
    if !AgreeBelow(va, vb, n) {
      var k := FirstDisagreement(va, vb, n);
      if At(va, k) < At(vb, k) {
        assert AgreeBelow(vb, va, k);
      }
    }
  }

  /** The first index below n where two component lists differ. */
  function FirstDisagreement(va: seq<nat>, vb: seq<nat>, n: nat): (k: nat)
    requires !AgreeBelow(va, vb, n)
    ensures k < n && AgreeBelow(va, vb, k) && At(va, k) != At(vb, k)
    decreases n
  {
    if AgreeBelow(va, vb, n - 1) then n - 1 else FirstDisagreement(va, vb, n - 1)
  }

  /** The component order is transitive. */
  lemma {:induction false} ComponentsGeTransitive(va: seq<nat>, vb: seq<nat>, vc: seq<nat>)
    requires ComponentsGe(va, vb) && ComponentsGe(vb, vc)
    ensures ComponentsGe(va, vc)
  {
    var n := Max(Max(|va|, |vb|), |vc|);
    GeFromWiden(va, vb, n);
    GeFromWiden(vb, vc, n);
    GeFromWiden(va, vc, n);
    GeTransitiveAt(va, vb, vc, 0, n);
  }

  /** Comparing up to any bound past both lengths gives the same answer. */
  lemma {:induction false} GeFromWiden(va: seq<nat>, vb: seq<nat>, n: nat)
    requires n >= Max(|va|, |vb|)
    ensures GeFrom(va, vb, 0, n) == ComponentsGe(va, vb)
  {
    var m := Max(|va|, |vb|);
    GeFromFirstDiff(va, vb, 0, n);
    GeFromFirstDiff(va, vb, 0, m);
    if AgreeBelow(va, vb, m) {
      assert AgreeBelow(va, vb, n) by {
        forall j | 0 <= j < n ensures At(va, j) == At(vb, j) {
          if j >= m { assert At(va, j) == 0 == At(vb, j); }
        }
      }
    } else {
      var k := FirstDisagreement(va, vb, m);
      FirstDiffAt(va, vb, m, k);
      FirstDiffAt(va, vb, n, k);
    }
  }

  lemma {:induction false} GeTransitiveAt(va: seq<nat>, vb: seq<nat>, vc: seq<nat>, i: nat, n: nat)
    requires i <= n
    requires GeFrom(va, vb, i, n) && GeFrom(vb, vc, i, n)
    ensures GeFrom(va, vc, i, n)
    decreases n - i
  {
    if i < n && At(va, i) == At(vb, i) == At(vc, i) {
      GeTransitiveAt(va, vb, vc, i + 1, n);
    }
  }

  lemma VersionGeTransitive(a: string, b: string, c: string)
    requires VersionGe(a, b) && VersionGe(b, c)
    ensures VersionGe(a, c)
  {
    ComponentsGeTransitive(ParseVersion(a), ParseVersion(b), ParseVersion(c));
  }

  /** Trailing zero components change nothing: v and v padded with zeros
      are each >= the other. */
  lemma {:induction false} ZeroPadding(v: seq<nat>, k: nat)
    ensures var w := v + seq(k, _ => 0); ComponentsGe(v, w) && ComponentsGe(w, v)
  {
    var w := v + seq(k, _ => 0);
    assert AgreeBelow(v, w, |w|) by {
      forall j | 0 <= j < |w| ensures At(v, j) == At(w, j) {
        if j < |v| { assert w[j] == v[j]; } else { assert w[j] == 0; }
      }
    }
    assert Max(|v|, |w|) == |w| == Max(|w|, |v|);
    ComponentsGeIsFirstDiff(v, w);
    ComponentsGeIsFirstDiff(w, v);
  }

  /** A single digit parses to its value. */
  lemma ParseDigit(c: char)
    requires IsDigit(c)
    ensures ParseU64([c]) == Some(c as int - '0' as int)
  {
    assert AllDigits([c]);
    assert [c][..0] == [];
  }

  /** "1.2" and "1.2.0" are each >= the other. */
  lemma ShortAndPaddedAreEqual()
    ensures VersionGe("1.2", "1.2.0") && VersionGe("1.2.0", "1.2")
  {
    Text.SplitNone("2", '.');
    Text.SplitNone("0", '.');
    assert "1.2" == "1" + ['.'] + "2";
    Text.SplitCons("1", "2", '.');
    assert "2.0" == "2" + ['.'] + "0";
    Text.SplitCons("2", "0", '.');
    assert "1.2.0" == "1" + ['.'] + "2.0";
    Text.SplitCons("1", "2.0", '.');
    ParseDigit('0');
    ParseDigit('1');
    ParseDigit('2');
    assert ParseVersion("1.2") == [1, 2];
    assert ParseVersion("1.2.0") == [1, 2] + seq(1, _ => 0);
    ZeroPadding([1, 2], 1);
  }

  /** File size and modification time of an executable; `modified` is None
      when the platform cannot report it, read as the Unix epoch. */
  datatype Meta = Meta(len: nat, modified: Option<int>)

  /** The `need_copy` decision of `ensure_local_execution`. `versionFile` is
      the content of the local version marker, None when it cannot be opened
      or read; `src`/`dst` are None when the metadata call fails. */
  function NeedCopy(localExists: bool, versionFile: Option<string>, current: string,
                    src: Option<Meta>, dst: Option<Meta>): (r: bool)
    ensures !localExists ==> r
    ensures localExists && versionFile.Some?
            && (var v := Text.Strip(versionFile.value, Text.IsRustSpace); |v| > 0 && VersionGe(v, current))
            ==> !r
    ensures localExists && src.Some? && dst.Some? && src.value.len == dst.value.len
            && src.value.modified.GetOr(0) <= dst.value.modified.GetOr(0)
            ==> !r
    ensures !r ==> localExists
    ensures !r && (src.None? || dst.None?) ==> versionFile.Some?
  {
    if !localExists then true
    else
      var byVersion := versionFile.Some?
        && var v := Text.Strip(versionFile.value, Text.IsRustSpace); |v| > 0 && VersionGe(v, current);
      var byMeta := src.Some? && dst.Some? && src.value.len == dst.value.len
        && src.value.modified.GetOr(0) <= dst.value.modified.GetOr(0);
      !(byVersion || byMeta)
  }

  /** A copy is skipped only for one of the two listed reasons. */
  lemma NeedCopyReasons(localExists: bool, versionFile: Option<string>, current: string,
                        src: Option<Meta>, dst: Option<Meta>)
    requires !NeedCopy(localExists, versionFile, current, src, dst)
    ensures localExists
    ensures (versionFile.Some? && var v := Text.Strip(versionFile.value, Text.IsRustSpace); |v| > 0 && VersionGe(v, current))
            || (src.Some? && dst.Some? && src.value.len == dst.value.len
                && src.value.modified.GetOr(0) <= dst.value.modified.GetOr(0))
  {
  }
}
