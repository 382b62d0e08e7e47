/** `String.prototype.trim` as ECMAScript 2019 defines it (sections 21.1.3.27 and 21.1.3.27.1):
    strip the WhiteSpace and LineTerminator code points (section 11.2 and 11.3) from both ends. */
module Text {

  /** WhiteSpace (TAB, VT, FF, SP, NBSP, ZWNBSP and the other Unicode "Zs" code points)
      or LineTerminator (LF, CR, LS, PS). */
  predicate IsWhitespace(ch: char)
  {
    var n := ch as int;
    n == 0x09 || n == 0x0A || n == 0x0B || n == 0x0C || n == 0x0D || n == 0x20 ||
    n == 0xA0 || n == 0x1680 || (0x2000 <= n <= 0x200A) || n == 0x2028 || n == 0x2029 ||
    n == 0x202F || n == 0x205F || n == 0x3000 || n == 0xFEFF
  }

  /** `s` with its leading whitespace removed. */
  function TrimStart(s: string): (r: string)
    ensures |r| <= |s| && r == s[|s| - |r|..]
    ensures forall i :: 0 <= i < |s| - |r| ==> IsWhitespace(s[i])
    ensures r != [] ==> !IsWhitespace(r[0])
  {
    if s == [] || !IsWhitespace(s[0]) then s else TrimStart(s[1..])
  }

  /** `s` with its trailing whitespace removed. */
  function TrimEnd(s: string): (r: string)
    ensures |r| <= |s| && r == s[..|r|]
    ensures forall i :: |r| <= i < |s| ==> IsWhitespace(s[i])
    ensures r != [] ==> !IsWhitespace(r[|r| - 1])
  {
    if s == [] || !IsWhitespace(s[|s| - 1]) then s else TrimEnd(s[..|s| - 1])
  }

  /** `s.trim()`: no longer than `s`, and empty or with non-whitespace at both ends. */
  function Trim(s: string): (r: string)
    ensures |r| <= |s|
    ensures r != [] ==> !IsWhitespace(r[0]) && !IsWhitespace(r[|r| - 1])
  {
    TrimEnd(TrimStart(s))
  }

  /** The trimmed string is empty exactly when every character of `s` is whitespace
      (this is the truthiness test `name.trim()` makes). */
  lemma TrimEmptyIff(s: string)
    ensures Trim(s) == [] <==> forall i :: 0 <= i < |s| ==> IsWhitespace(s[i])
  {
    var t := TrimStart(s);
    if t != [] {
      assert !IsWhitespace(t[0]);
      assert TrimEnd(t) != [];
      assert s[|s| - |t|] == t[0];
    }
  }

  /** A suffix `t` of `s` and a prefix `u` of `t`, cut off at characters of class `w`,
      make `u` a slice of `s` with characters of class `w` outside it. */
  lemma InnerSlice(s: string, t: string, u: string, w: char -> bool) returns (lo: nat, hi: nat)
    requires |t| <= |s| && t == s[|s| - |t|..]
    requires forall i :: 0 <= i < |s| - |t| ==> w(s[i])
    requires |u| <= |t| && u == t[..|u|]
    requires forall i :: |u| <= i < |t| ==> w(t[i])
    ensures lo == |s| - |t| && hi == lo + |u| && hi <= |s|
    ensures u == s[lo..hi]
    ensures forall i :: 0 <= i < lo || hi <= i < |s| ==> w(s[i])
  {
    lo := |s| - |t|;
    hi := lo + |u|;
    assert u == s[lo..hi];
    forall i | 0 <= i < lo || hi <= i < |s| ensures w(s[i]) {
      if hi <= i {
        assert s[i] == t[i - lo];
      }
    }
  }

  /** Trimming removes a whitespace border and nothing else: the result is a contiguous
      piece of `s` whose first and last characters are not whitespace. */
  lemma TrimIsInnerSlice(s: string) returns (lo: nat, hi: nat)
    ensures lo <= hi <= |s| && Trim(s) == s[lo..hi]
    ensures forall i :: 0 <= i < lo || hi <= i < |s| ==> IsWhitespace(s[i])
    ensures lo < hi ==> !IsWhitespace(s[lo]) && !IsWhitespace(s[hi - 1])
  {
    var t := TrimStart(s);
    var u := TrimEnd(t);
    lo, hi := InnerSlice(s, t, u, IsWhitespace);
    if lo < hi {
      assert s[lo] == u[0] && s[hi - 1] == u[|u| - 1];
    }
  }
}
