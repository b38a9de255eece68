/**
 * The end-anchored regular expressions the scripts use on file names, written as
 * string functions. Each is checked against a direct statement of what the
 * expression matches.
 */
module Patterns {
  import opened Wrappers
  import opened Text

  predicate IsDigit(c: char) {
    '0' <= c <= '9'
  }

  /** A character of the class `[.0-9]`. */
  predicate IsVersionChar(c: char) {
    c == '.' || IsDigit(c)
  }

  /** `d` matches `[0-9]+`. */
  predicate IsDigits(d: string) {
    |d| > 0 && forall j :: 0 <= j < |d| ==> IsDigit(d[j])
  }

  /** `t` with its trailing run of `[.0-9]` characters removed. */
  function TrimVersion(t: string): (r: string)
    ensures |r| <= |t| && r == t[..|r|]
    ensures forall j :: |r| <= j < |t| ==> IsVersionChar(t[j])
    ensures |r| > 0 ==> !IsVersionChar(r[|r| - 1])
  {
    if |t| > 0 && IsVersionChar(t[|t| - 1]) then TrimVersion(t[..|t| - 1]) else t
  }

  /** `re.search('\\.so[.0-9]*$', t)`, computed: the name ends in `.so` once version characters are trimmed. */
  predicate SoTail(t: string) {
    EndsWith(TrimVersion(t), ".so")
  }

  /** `u` matches `\.so[.0-9]*` in full. */
  predicate SoVersionSuffix(u: string) {
    |u| >= 3 && u[..3] == ".so" && forall j :: 3 <= j < |u| ==> IsVersionChar(u[j])
  }

  /** What the expression matches: some suffix of `t` is `.so` followed by version characters. */
  predicate SoTailMatch(t: string) {
    exists i :: 0 <= i <= |t| && SoVersionSuffix(t[i..])
  }

  /** The computed test agrees with the expression's meaning. */
  lemma SoTailIff(t: string)
    ensures SoTail(t) <==> SoTailMatch(t)
  {
    var r := TrimVersion(t);
    if SoTail(t) {
      var i := |r| - 3;
      assert t[i..][..3] == r[i..];
      assert SoVersionSuffix(t[i..]);
    }
    if SoTailMatch(t) {
      var i :| 0 <= i <= |t| && SoVersionSuffix(t[i..]);
      assert t[i + 2] == 'o' by { assert t[i..][2] == t[i + 2]; }
      assert |r| == i + 3;
      assert r[i..] == t[i..][..3];
    }
  }

  /** Start of the trailing run of digits of `t`. */
  function TrailingDigits(t: string): (k: nat)
    ensures k <= |t|
    ensures forall j :: k <= j < |t| ==> IsDigit(t[j])
    ensures k > 0 ==> !IsDigit(t[k - 1])
  {
    if |t| > 0 && IsDigit(t[|t| - 1]) then TrailingDigits(t[..|t| - 1]) else |t|
  }

  /**
   * `t` without its last `n` groups `\.[0-9]+`, or `None` when `t` does not end in `n`
   * such groups: the one place `(\.[0-9]+){n}$` can match.
   */
  function StripNumGroups(t: string, n: nat): (r: Option<string>)
    ensures r.Some? ==> |r.value| <= |t| && r.value == t[..|r.value|]
  {
    if n == 0 then Some(t)
    else
      var k := TrailingDigits(t);
      if 0 < k < |t| && t[k - 1] == '.' then StripNumGroups(t[..k - 1], n - 1) else None
  }

  /** A name that ends in `n + 1` groups also ends in `n`. */
  lemma {:induction false} StripFewer(t: string, n: nat)
    requires StripNumGroups(t, n + 1).Some?
    ensures StripNumGroups(t, n).Some?
  {
    if n > 0 {
      var k := TrailingDigits(t);
      StripFewer(t[..k - 1], n - 1);
    }
  }

  /** A name that ends in `n + 1` groups is some `u` then the group `.d`, and `u` ends in `n`. */
  lemma StripOneGroup(t: string, n: nat) returns (u: string, d: string)
    requires StripNumGroups(t, n + 1).Some?
    ensures IsDigits(d) && t == u + "." + d
    ensures StripNumGroups(t, n + 1) == StripNumGroups(u, n)
  {
    var k := TrailingDigits(t);
    u, d := t[..k - 1], t[k..];
    assert t == u + "." + d;
  }

  /** Appending one group `.d` adds one group to strip. */
  lemma StripGroup(r: string, d: string, n: nat)
    requires IsDigits(d)
    ensures StripNumGroups(r + "." + d, n + 1) == StripNumGroups(r, n)
  {
    var t := r + "." + d;
    var k := TrailingDigits(t);
    assert !IsDigit(t[|r|]);
    assert k == |r| + 1;
    assert t[..k - 1] == r;
  }
}
