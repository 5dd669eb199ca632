/**
 * The parts of the JavaScript runtime the entities rely on: `String.prototype.trim`
 * and nullable `Date` values.
 */
module Js {

  /**
   * White space as `trim` strips it: the WhiteSpace and LineTerminator code points
   * of section 12.2 and 12.3 of ECMA-262 (TAB, VT, FF, SP, NBSP, ZWNBSP, every
   * other Space_Separator, LF, CR, LS, PS).
   */
  predicate IsWs(c: char) {
    || c == '\t' || c == '\U{000B}' || c == '\U{000C}' || c == ' '
    || c == '\U{00A0}' || c == '\U{FEFF}' || c == '\U{1680}'
    || ('\U{2000}' <= c <= '\U{200A}')
    || c == '\U{202F}' || c == '\U{205F}' || c == '\U{3000}'
    || c == '\n' || c == '\r' || c == '\U{2028}' || c == '\U{2029}'
  }

  /** Every character of `s` is white space (vacuously true of ""). */
  ghost predicate AllWs(s: string) {
    forall i | 0 <= i < |s| :: IsWs(s[i])
  }

  /** `s` with its leading white space removed. */
  function TrimStart(s: string): (r: string)
    ensures |r| <= |s| && r == s[|s| - |r|..]
    ensures forall i | 0 <= i < |s| - |r| :: IsWs(s[i])
    ensures r != [] ==> !IsWs(r[0])
    ensures r == [] <==> AllWs(s)
  {
    if |s| > 0 && IsWs(s[0]) then TrimStart(s[1..]) else s
  }

  /** `s` with its trailing white space removed. */
  function TrimEnd(s: string): (r: string)
    ensures |r| <= |s| && r == s[..|r|]
    ensures forall i | |r| <= i < |s| :: IsWs(s[i])
    ensures r != [] ==> !IsWs(r[|r| - 1])
    ensures r == [] <==> AllWs(s)
  {
    if |s| > 0 && IsWs(s[|s| - 1]) then TrimEnd(s[..|s| - 1]) else s
  }

  /** `s.trim()`: the longest infix of `s` that neither starts nor ends with white space. */
  function Trim(s: string): (r: string)
    ensures |r| <= |s|
    ensures exists i {:trigger AllWs(s[..i])} ::
      && 0 <= i <= |s| - |r|
      && r == s[i..i + |r|]
      && AllWs(s[..i])
      && AllWs(s[i + |r|..])
    ensures r != [] ==> !IsWs(r[0]) && !IsWs(r[|r| - 1])
    ensures |r| == 0 <==> AllWs(s)
  {
    InfixBetweenWs(s, TrimStart(s), TrimEnd(TrimStart(s)));
    TrimEnd(TrimStart(s))
  }

  /**
   * A prefix `r` of the suffix `ts` of `s`, with white space before `ts` and after
   * `r`, is an infix of `s` that only white space surrounds.
   */
  lemma InfixBetweenWs(s: string, ts: string, r: string)
    requires |ts| <= |s| && ts == s[|s| - |ts|..]
    requires forall k | 0 <= k < |s| - |ts| :: IsWs(s[k])
    requires |r| <= |ts| && r == ts[..|r|]
    requires forall k | |r| <= k < |ts| :: IsWs(ts[k])
    ensures exists i {:trigger AllWs(s[..i])} ::
      && 0 <= i <= |s| - |r|
      && r == s[i..i + |r|]
      && AllWs(s[..i])
      && AllWs(s[i + |r|..])
  {
    var i := |s| - |ts|;
    assert s[i..i + |r|] == r;
    assert s[i + |r|..] == ts[|r|..];
    assert AllWs(s[..i]);
  }

  /** A JavaScript `Date | null` field; `Undefined` is what an omitted argument holds. */
  datatype Stamp = Null | Undefined | At(ms: int)
}
