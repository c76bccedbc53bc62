/**
 * The part of JavaScript's string semantics the edit handlers rely on:
 * `String.prototype.trim` and the whitespace it strips. The handlers use
 * `!content.trim()` to reject an edit whose text is only whitespace.
 */
module JsText {

  /** ECMAScript WhiteSpace and LineTerminator code points, the set `trim` strips:
      TAB, LF, VT, FF, CR, SPACE, NBSP, the Unicode space separators, LS, PS and the BOM. */
  predicate IsWhitespace(c: char) {
    var n := c as int;
    n == 0x09 || n == 0x0A || n == 0x0B || n == 0x0C || n == 0x0D
    || n == 0x20 || n == 0xA0 || n == 0x1680 || (0x2000 <= n <= 0x200A)
    || n == 0x2028 || n == 0x2029 || n == 0x202F || n == 0x205F || n == 0x3000
    || n == 0xFEFF
  }

  /** Every character of `s` is whitespace (the empty string included). */
  predicate IsBlank(s: string) {
    forall i :: 0 <= i < |s| ==> IsWhitespace(s[i])
  }

  /** Drops the leading whitespace: the result is a suffix of `s`, what was
      dropped is all whitespace, and the result does not start with whitespace. */
  function TrimStart(s: string): (r: string)
    ensures |r| <= |s| && r == s[|s| - |r|..]
    ensures IsBlank(s[..|s| - |r|])
    ensures r == [] || !IsWhitespace(r[0])
  {
    if s != [] && IsWhitespace(s[0]) then TrimStart(s[1..]) else s
  }

  /** Drops the trailing whitespace: the result is a prefix of `s`, what was
      dropped is all whitespace, and the result does not end with whitespace. */
  function TrimEnd(s: string): (r: string)
    ensures |r| <= |s| && r == s[..|r|]
    ensures IsBlank(s[|r|..])
    ensures r == [] || !IsWhitespace(r[|r| - 1])
  {
    if s != [] && IsWhitespace(s[|s| - 1]) then TrimEnd(s[..|s| - 1]) else s
  }

  /** `String.prototype.trim`: the result is empty exactly when `s` is blank,
      and otherwise it is the slice of `s` from its first to its last
      non-whitespace character. */
  function Trim(s: string): (r: string)
    ensures r == "" <==> IsBlank(s)
    ensures exists i, j :: 0 <= i <= j <= |s| && r == s[i..j] && IsBlank(s[..i]) && IsBlank(s[j..])
    ensures r == [] || (!IsWhitespace(r[0]) && !IsWhitespace(r[|r| - 1]))
  {
    TrimSlice(s);
    TrimEnd(TrimStart(s))
  }

  /** What `Trim` keeps: a slice of `s` with blank margins that neither starts
      nor ends with whitespace, and nothing at all when `s` is blank. */
  lemma TrimSlice(s: string)
    ensures var r := TrimEnd(TrimStart(s));
      && (r == "" <==> IsBlank(s))
      && (exists i, j :: 0 <= i <= j <= |s| && r == s[i..j] && IsBlank(s[..i]) && IsBlank(s[j..]))
      && (r == [] || (!IsWhitespace(r[0]) && !IsWhitespace(r[|r| - 1])))
  {
    var t := TrimStart(s);
    var r := TrimEnd(t);
    var i := |s| - |t|;
    var j := i + |r|;
    assert r == s[i..j];
    assert IsBlank(s[j..]) by {
      assert s[j..] == t[|r|..];
    }
    if t == [] {
      assert s[..i] == s;
    } else {
      TrimEndKeepsFirst(t);
      assert s[i] == t[0];
    }
  }

  /** TrimEnd never removes a leading non-whitespace character. */
  lemma {:induction false} TrimEndKeepsFirst(t: string)
    requires t != [] && !IsWhitespace(t[0])
    ensures TrimEnd(t) != [] && TrimEnd(t)[0] == t[0]
  {
    if |t| > 1 && IsWhitespace(t[|t| - 1]) {
      TrimEndKeepsFirst(t[..|t| - 1]);
    }
  }
}
