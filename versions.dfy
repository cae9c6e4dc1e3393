/**
 * Version strings of the release registry: splitting on `.` and `-`,
 * decimal numerals, the parsed integer list, Python's ordering of such
 * lists, the patch bump and the branch name derived from a version.
 */
module Versions {
  import opened Outcomes

  /** The characters matched by the pattern `[.-]`. */
  const VersionSeparators: set<char> := {'.', '-'}

  /** Prefix of every release branch name. */
  const BranchPrefix: string := "version_"

  function Min(a: int, b: int): int { if a <= b then a else b }

  /** True when no character of `t` belongs to `seps`. */
  predicate FreeOf(t: string, seps: set<char>) {
    forall j :: 0 <= j < |t| ==> t[j] !in seps
  }

  /**
   * `re.split` with a single-character class: cut `s` at every separator,
   * keeping empty pieces, so there is always one more piece than separators.
   */
  function Split(s: string, seps: set<char>): (r: seq<string>)
    ensures |r| >= 1
    ensures forall i :: 0 <= i < |r| ==> FreeOf(r[i], seps)
  {
    if s == [] then [""]
    else
      var rest := Split(s[1..], seps);
      if s[0] in seps then [""] + rest
      else [[s[0]] + rest[0]] + rest[1..]
  }

  /** `sep.join(ts)`. */
  function JoinWith(sep: char, ts: seq<string>): string {
    if |ts| == 0 then ""
    else if |ts| == 1 then ts[0]
    else ts[0] + [sep] + JoinWith(sep, ts[1..])
  }

  lemma {:induction false} SplitFree(t: string, seps: set<char>)
    requires FreeOf(t, seps)
    ensures Split(t, seps) == [t]
  {
    if t != [] {
      assert FreeOf(t[1..], seps);
      SplitFree(t[1..], seps);
      assert [t[0]] + t[1..] == t;
    }
  }

  /** Cutting at one separator splits the pieces of both sides apart. */
  lemma {:induction false} SplitAround(a: string, c: char, b: string, seps: set<char>)
    requires c in seps
    ensures Split(a + [c] + b, seps) == Split(a, seps) + Split(b, seps)
  {
    if a == [] {
      assert a + [c] + b == [c] + b;
      assert ([c] + b)[1..] == b;
    } else {
      assert (a + [c] + b)[1..] == a[1..] + [c] + b;
      SplitAround(a[1..], c, b, seps);
    }
  }

  /** Joining separator-free pieces and splitting again gives the pieces back. */
  lemma {:induction false} SplitJoin(sep: char, ts: seq<string>, seps: set<char>)
    requires sep in seps && |ts| >= 1
    requires forall i :: 0 <= i < |ts| ==> FreeOf(ts[i], seps)
    ensures Split(JoinWith(sep, ts), seps) == ts
  {
    SplitFree(ts[0], seps);
    if |ts| > 1 {
      SplitAround(ts[0], sep, JoinWith(sep, ts[1..]), seps);
      SplitJoin(sep, ts[1..], seps);
    }
  }

  // ---------------------------------------------------------------------
  // Decimal numerals

  predicate IsDigit(c: char) { '0' <= c <= '9' }

  predicate AllDigits(t: string) { forall i :: 0 <= i < |t| ==> IsDigit(t[i]) }

  /** A token that `int()` accepts here: one or more ASCII digits. */
  predicate IsNumeral(t: string) { |t| > 0 && AllDigits(t) }

  function DigitChar(d: nat): (c: char)
    requires d < 10
    ensures IsDigit(c)
  {
    ('0' as int + d) as char
  }

  /** The integer a digit string denotes (leading zeros allowed, as in `int("007")`). */
  function NumeralValue(t: string): nat
    requires AllDigits(t)
  {
    if t == [] then 0
    else 10 * NumeralValue(t[..|t| - 1]) + (t[|t| - 1] as int - '0' as int)
  }

  /** `str(n)` for a non-negative integer: its canonical decimal numeral. */
  function Decimal(n: nat): (r: string)
    ensures IsNumeral(r) && NumeralValue(r) == n
    ensures |r| == 1 <==> n < 10
    ensures |r| > 1 ==> r[0] != '0'
  {
    if n < 10 then [DigitChar(n)]
    else
      var p := Decimal(n / 10);
      assert (p + [DigitChar(n % 10)])[..|p|] == p;
      p + [DigitChar(n % 10)]
  }

  lemma DecimalInjective(m: nat, n: nat)
    requires Decimal(m) == Decimal(n)
    ensures m == n
  {
    assert NumeralValue(Decimal(m)) == m;
  }

  /** `[str(p) for p in v]`. */
  function Decimals(v: seq<nat>): (r: seq<string>)
    ensures |r| == |v|
    ensures forall i :: 0 <= i < |v| ==> r[i] == Decimal(v[i])
  {
    seq(|v|, i requires 0 <= i < |v| => Decimal(v[i]))
  }

  // ---------------------------------------------------------------------
  // version_to_list

  /**
   * `[int(part) for part in ts]`: the integers of the tokens, or the error
   * `int()` raises on the first token that is not a numeral.
   */
  function ParseTokens(ts: seq<string>): (r: Result<seq<nat>>)
    ensures r.Ok? <==> forall i :: 0 <= i < |ts| ==> IsNumeral(ts[i])
    ensures r.Ok? ==> |r.value| == |ts|
    ensures r.Ok? ==> forall i :: 0 <= i < |ts| ==> IsNumeral(ts[i]) && r.value[i] == NumeralValue(ts[i])
    ensures r.Err? ==> exists i :: 0 <= i < |ts| && r.error == InvalidLiteral(ts[i]) && !IsNumeral(ts[i])
  {
    if ts == [] then Ok([])
    else if !IsNumeral(ts[0]) then Err(InvalidLiteral(ts[0]))
    else match ParseTokens(ts[1..])
      case Err(e) => Err(e)
      case Ok(rest) => Ok([NumeralValue(ts[0])] + rest)
  }

  /** The `.`/`-`-delimited tokens of a version string. */
  function Tokens(s: string): seq<string> { Split(s, VersionSeparators) }

  /**
   * `version_to_list`: the integers of the first three tokens. Since a
   * split always yields a token and the empty token is not a numeral, a
   * successful parse is never empty.
   */
  function VersionToList(s: string): (r: Result<seq<nat>>)
    ensures r.Ok? ==> 1 <= |r.value| <= 3
  {
    var toks := Tokens(s);
    ParseTokens(toks[..Min(3, |toks|)])
  }

  /**
   * What `version_to_list` returns: the values of the first three tokens
   * when each of them is a numeral, otherwise the error for one that is not.
   */
  lemma VersionToListMeaning(s: string)
    ensures VersionToList(s).Ok? <==> forall i :: 0 <= i < Min(3, |Tokens(s)|) ==> IsNumeral(Tokens(s)[i])
    ensures VersionToList(s).Ok? ==> |VersionToList(s).value| == Min(3, |Tokens(s)|)
    ensures VersionToList(s).Ok? ==>
              forall i :: 0 <= i < |VersionToList(s).value| ==>
                IsNumeral(Tokens(s)[i]) && VersionToList(s).value[i] == NumeralValue(Tokens(s)[i])
    ensures VersionToList(s).Err? ==>
              exists i :: 0 <= i < Min(3, |Tokens(s)|) && VersionToList(s).error == InvalidLiteral(Tokens(s)[i])
  {
    var toks := Tokens(s);
    var first := toks[..Min(3, |toks|)];
    assert forall i :: 0 <= i < |first| ==> first[i] == toks[i];
  }

  /** `'.'.join(str(part) for part in v)`. */
  function VersionString(v: seq<nat>): string { JoinWith('.', Decimals(v)) }

  lemma DecimalsFree(v: seq<nat>, seps: set<char>)
    requires forall c :: c in seps ==> !IsDigit(c)
    ensures forall i :: 0 <= i < |Decimals(v)| ==> FreeOf(Decimals(v)[i], seps)
  {
  }

  /** Printing a list of one to three integers and parsing it back gives the list. */
  lemma {:induction false} VersionRoundTrip(v: seq<nat>)
    requires 1 <= |v| <= 3
    ensures VersionToList(VersionString(v)) == Ok(v)
  {
    DecimalsFree(v, VersionSeparators);
    SplitJoin('.', Decimals(v), VersionSeparators);
    var toks := Tokens(VersionString(v));
    assert toks[..Min(3, |toks|)] == Decimals(v);
    var r := ParseTokens(Decimals(v));
    assert r.Ok? && |r.value| == |v|;
    assert r.value == v;
  }

  /** Tokens after the third do not affect the parse. */
  lemma {:induction false} VersionIgnoresSuffix(s: string, c: char, t: string)
    requires c in VersionSeparators && |Tokens(s)| >= 3
    ensures VersionToList(s + [c] + t) == VersionToList(s)
  {
    SplitAround(s, c, t, VersionSeparators);
    assert Tokens(s + [c] + t)[..3] == Tokens(s)[..3];
  }

  // ---------------------------------------------------------------------
  // Python's ordering of integer lists

  /**
   * `a < b` on Python lists: the first differing element decides, and a
   * proper prefix is smaller.
   */
  predicate Less(a: seq<nat>, b: seq<nat>) {
    if b == [] then false
    else if a == [] then true
    else a[0] < b[0] || (a[0] == b[0] && Less(a[1..], b[1..]))
  }

  /** The same order stated without recursion. */
  predicate LexicallyBefore(a: seq<nat>, b: seq<nat>) {
    (|a| < |b| && a == b[..|a|]) ||
    (exists k :: 0 <= k < |a| && k < |b| && a[..k] == b[..k] && a[k] < b[k])
  }

  lemma {:induction false} LessIsLexicallyBefore(a: seq<nat>, b: seq<nat>)
    ensures Less(a, b) <==> LexicallyBefore(a, b)
  {
    if a != [] && b != [] {
      LessIsLexicallyBefore(a[1..], b[1..]);
      if LexicallyBefore(a[1..], b[1..]) && a[0] == b[0] {
        if |a[1..]| < |b[1..]| && a[1..] == b[1..][..|a[1..]|] {
          assert a == b[..|a|];
        } else {
          var k :| 0 <= k < |a[1..]| && k < |b[1..]| && a[1..][..k] == b[1..][..k] && a[1..][k] < b[1..][k];
          assert a[..k + 1] == [a[0]] + a[1..][..k];
          assert b[..k + 1] == [b[0]] + b[1..][..k];
        }
      }
      if LexicallyBefore(a, b) && !(a[0] < b[0]) {
        if |a| < |b| && a == b[..|a|] {
          assert a[1..] == b[1..][..|a[1..]|];
        } else {
          var k :| 0 <= k < |a| && k < |b| && a[..k] == b[..k] && a[k] < b[k];
          assert k > 0;
          assert a[0] == a[..k][0] == b[..k][0] == b[0];
          assert a[1..][..k - 1] == a[..k][1..];
          assert b[1..][..k - 1] == b[..k][1..];
          assert a[1..][k - 1] == a[k];
        }
      }
    } else if a == [] && b != [] {
      assert a == b[..0];
    }
  }

  lemma {:induction false} LessIrreflexive(a: seq<nat>)
    ensures !Less(a, a)
  {
    if a != [] {
      LessIrreflexive(a[1..]);
    }
  }

  lemma {:induction false} LessTransitive(a: seq<nat>, b: seq<nat>, c: seq<nat>)
    requires Less(a, b) && Less(b, c)
    ensures Less(a, c)
  {
    if a != [] && a[0] == b[0] && b[0] == c[0] {
      LessTransitive(a[1..], b[1..], c[1..]);
    }
  }

  lemma LessAsymmetric(a: seq<nat>, b: seq<nat>)
    requires Less(a, b)
    ensures !Less(b, a)
  {
    if Less(b, a) {
      LessTransitive(a, b, a);
      LessIrreflexive(a);
    }
  }

  lemma {:induction false} LessTotal(a: seq<nat>, b: seq<nat>)
    ensures a == b || Less(a, b) || Less(b, a)
  {
    if a != [] && b != [] && a[0] == b[0] {
      LessTotal(a[1..], b[1..]);
      if a[1..] == b[1..] {
        assert a == [a[0]] + a[1..] && b == [b[0]] + b[1..];
      }
    }
  }

  /** `!(b < a)`, which is Python's `a <= b` on integer lists. */
  predicate AtMost(a: seq<nat>, b: seq<nat>) { !Less(b, a) }

  lemma AtMostTransitive(a: seq<nat>, b: seq<nat>, c: seq<nat>)
    requires AtMost(a, b) && AtMost(b, c)
    ensures AtMost(a, c)
  {
    LessTotal(a, b);
    LessTotal(b, c);
    if Less(c, a) {
      if Less(a, b) {
        LessTransitive(c, a, b);
      }
    }
  }

  // ---------------------------------------------------------------------
  // The next version and its branch name

  /** `new_version[-1] += 1` on a list the parse returned (never empty). */
  function Bump(v: seq<nat>): (r: seq<nat>)
    requires |v| >= 1
    ensures |r| == |v| && r[..|v| - 1] == v[..|v| - 1] && r[|v| - 1] == v[|v| - 1] + 1
  {
    v[|v| - 1 := v[|v| - 1] + 1]
  }

  /** The bump yields a strictly greater list. */
  lemma {:induction false} BumpIncreases(v: seq<nat>)
    requires |v| >= 1
    ensures Less(v, Bump(v))
  {
    if |v| > 1 {
      assert Bump(v)[1..] == Bump(v[1..]);
      BumpIncreases(v[1..]);
    }
  }

  /** Parse the `latest` alias and bump its last component. */
  function NextVersion(latest: string): (r: Result<seq<nat>>)
    ensures r.Ok? <==> VersionToList(latest).Ok?
    ensures r.Err? ==> r.error == VersionToList(latest).error
    ensures r.Ok? ==> 1 <= |r.value| <= 3 && Less(VersionToList(latest).value, r.value)
    ensures r.Ok? ==> VersionToList(VersionString(r.value)) == Ok(r.value)
  {
    match VersionToList(latest)
    case Err(e) => Err(e)
    case Ok(v) =>
      BumpIncreases(v);
      VersionRoundTrip(Bump(v));
      Ok(Bump(v))
  }

  /** `f"version_{'_'.join(str(part) for part in v)}"`. */
  function BranchName(v: seq<nat>): string { BranchPrefix + JoinWith('_', Decimals(v)) }

  /**
   * After the prefix, a branch name holds the same decimal tokens as the
   * version string, separated by `_` instead of `.`.
   */
  lemma BranchNameTokens(v: seq<nat>)
    requires |v| >= 1
    ensures |BranchName(v)| > |BranchPrefix| && BranchName(v)[..|BranchPrefix|] == BranchPrefix
    ensures Split(BranchName(v)[|BranchPrefix|..], {'_'}) == Decimals(v)
    ensures Tokens(VersionString(v)) == Decimals(v)
  {
    DecimalsFree(v, {'_'});
    DecimalsFree(v, VersionSeparators);
    SplitJoin('_', Decimals(v), {'_'});
    SplitJoin('.', Decimals(v), VersionSeparators);
    assert BranchName(v)[|BranchPrefix|..] == JoinWith('_', Decimals(v));
    assert |Decimals(v)[0]| > 0;
  }

  /** Distinct versions never share a branch name. */
  lemma BranchNameInjective(v: seq<nat>, w: seq<nat>)
    requires |v| >= 1 && |w| >= 1 && BranchName(v) == BranchName(w)
    ensures v == w
  {
    BranchNameTokens(v);
    BranchNameTokens(w);
    forall i | 0 <= i < |v| ensures v[i] == w[i] {
      DecimalInjective(v[i], w[i]);
    }
  }
}
