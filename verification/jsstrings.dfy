/** The few ECMAScript `String.prototype` operations the script relies on:
    `startsWith`, `includes` and `trim`. */
module JsStrings {

  /** `s.startsWith(p)`, computed character by character. */
  function StartsWith(s: string, p: string): (r: bool)
    ensures r <==> p <= s
  {
    if |p| == 0 then true
    else if |s| == 0 then false
    else s[0] == p[0] && StartsWith(s[1..], p[1..])
  }

  /** `sub` occurs in `s` starting at index `k`. */
  ghost predicate OccursAt(s: string, sub: string, k: int) {
    0 <= k && k + |sub| <= |s| && s[k..k + |sub|] == sub
  }

  /** `s.includes(sub)`: try every start position from the left. The empty
      string is included in every string, and nothing longer than `s` is. */
  function Includes(s: string, sub: string): (r: bool)
    ensures |sub| == 0 ==> r
    ensures r ==> |sub| <= |s|
    decreases |s|
  {
    if StartsWith(s, sub) then true
    else if |s| == 0 then false
    else Includes(s[1..], sub)
  }

  /** `includes` answers true exactly when `sub` occurs somewhere in `s`. */
  lemma {:induction false} IncludesIffOccurs(s: string, sub: string)
    ensures Includes(s, sub) <==> exists k :: OccursAt(s, sub, k)
    decreases |s|
  {
    if StartsWith(s, sub) {
      assert OccursAt(s, sub, 0);
    } else if |s| == 0 {
      assert |sub| > 0;
      forall k ensures !OccursAt(s, sub, k) {}
    } else {
      IncludesIffOccurs(s[1..], sub);
      if Includes(s, sub) {
        var k :| OccursAt(s[1..], sub, k);
        assert s[1..][k..k + |sub|] == s[k + 1..k + 1 + |sub|];
        assert OccursAt(s, sub, k + 1);
      } else {
        forall k | 1 <= k && k + |sub| <= |s| ensures !OccursAt(s, sub, k) {
          assert s[1..][k - 1..k - 1 + |sub|] == s[k..k + |sub|];
          assert !OccursAt(s[1..], sub, k - 1);
        }
        assert !OccursAt(s, sub, 0);
      }
    }
  }

  /** ECMAScript WhiteSpace and LineTerminator code points: what `trim`
      removes (section 22.1.3.32 of ECMA-262, via sections 12.2 and 12.3). */
  predicate IsWhiteSpace(c: char) {
    var n := c as int;
    || n == 0x09 || n == 0x0B || n == 0x0C || n == 0x20 || n == 0xA0 || n == 0xFEFF
    || n == 0x0A || n == 0x0D || n == 0x2028 || n == 0x2029
    || n == 0x1680 || (0x2000 <= n <= 0x200A) || n == 0x202F || n == 0x205F || n == 0x3000
  }

  /** Every character of `s` is white space (vacuously true of ""). */
  predicate IsBlank(s: string) {
    forall i :: 0 <= i < |s| ==> IsWhiteSpace(s[i])
  }

  /** Drops leading white space: the result is the suffix of `s` after a
      white-space prefix, and does not itself start with white space. */
  function TrimStart(s: string): (r: string)
    ensures |r| <= |s| && r == s[|s| - |r|..]
    ensures IsBlank(s[..|s| - |r|])
    ensures |r| > 0 ==> !IsWhiteSpace(r[0])
  {
    if |s| > 0 && IsWhiteSpace(s[0]) then TrimStart(s[1..]) else s
  }

  /** Drops trailing white space: the result is the prefix of `s` before a
      white-space suffix, and does not itself end with white space. */
  function TrimEnd(s: string): (r: string)
    ensures |r| <= |s| && r == s[..|r|]
    ensures IsBlank(s[|r|..])
    ensures |r| > 0 ==> !IsWhiteSpace(r[|r| - 1])
  {
    if |s| > 0 && IsWhiteSpace(s[|s| - 1]) then TrimEnd(s[..|s| - 1]) else s
  }

  /** `r` is `s` with some all-white-space prefix and suffix removed. */
  ghost predicate TrimmedFrom(r: string, s: string) {
    exists k :: && 0 <= k && k + |r| <= |s| && r == s[k..k + |r|]
                && IsBlank(s[..k]) && IsBlank(s[k + |r|..])
  }

  /** `s.trim()`: a piece of `s` that neither starts nor ends with white
      space. */
  function Trim(s: string): (r: string)
    ensures |r| <= |s|
    ensures TrimmedFrom(r, s)
    ensures |r| > 0 ==> !IsWhiteSpace(r[0]) && !IsWhiteSpace(r[|r| - 1])
  {
    var t := TrimStart(s);
    var r := TrimEnd(t);
    assert |r| > 0 ==> r[0] == t[0];
    var k := |s| - |t|;
    assert r == s[k..k + |r|];
    assert s[k + |r|..] == t[|r|..];
    r
  }

  /** `s.trim() === ''` holds exactly when `s` is all white space. */
  lemma TrimEmptyIffBlank(s: string)
    ensures Trim(s) == "" <==> IsBlank(s)
  {
    var t := TrimStart(s);
    assert s == s[..|s| - |t|] + t;
    if |t| > 0 {
      assert t[0..] == t && !IsBlank(t);
      assert !IsWhiteSpace(s[|s| - |t|]);
    }
  }

  /** The test `s.trim() === ''`: true exactly for all-white-space input. */
  method TrimsToEmpty(s: string) returns (empty: bool)
    ensures empty <==> IsBlank(s)
  {
    TrimEmptyIffBlank(s);
    empty := Trim(s) == "";
  }
}
