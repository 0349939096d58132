/** The part of JavaScript's `String.prototype.trim` that the task form relies on:
    a title is accepted only when something other than white space is left after trimming. */
module JsString {

  /** A character that `trim` removes: ECMAScript's WhiteSpace (tab, vertical tab, form feed,
      space, no-break space, byte order mark and the other space separators) and its
      LineTerminator characters (line feed, carriage return, line and paragraph separators).
      Letters and digits are never removed; space, tab and both line breaks always are. */
  predicate IsWhitespace(c: char): (b: bool)
    ensures ('0' <= c <= '9' || 'A' <= c <= 'Z' || 'a' <= c <= 'z') ==> !b
    ensures (c == ' ' || c == '\t' || c == '\n' || c == '\r') ==> b
  {
    || c == '\t' || c == '\U{B}' || c == '\U{C}' || c == ' ' || c == '\U{A0}' || c == '\U{FEFF}'
    || c == '\U{1680}' || ('\U{2000}' <= c <= '\U{200A}') || c == '\U{202F}' || c == '\U{205F}'
    || c == '\U{3000}'
    || c == '\n' || c == '\r' || c == '\U{2028}' || c == '\U{2029}'
  }

  /** Every character of `s` is white space (the empty string included): exactly the
      strings from which dropping the leading white space leaves nothing. */
  predicate IsBlank(s: string): (b: bool)
    ensures b <==> TrimStart(s) == []
  {
    var t := TrimStart(s);
    // a kept first character is a character of `s` that is not white space
    assert t != [] ==> t[0] == s[|s| - |t|] && !IsWhitespace(t[0]);
    forall i :: 0 <= i < |s| ==> IsWhitespace(s[i])
  }

  /** Drops the leading white space: what is left is a suffix of `s` that does not start
      with white space, and everything dropped was white space. */
  function TrimStart(s: string): (r: string)
    ensures |r| <= |s| && r == s[|s| - |r|..]
    ensures r == [] || !IsWhitespace(r[0])
    ensures forall i :: 0 <= i < |s| - |r| ==> IsWhitespace(s[i])
  {
    if s != [] && IsWhitespace(s[0]) then TrimStart(s[1..]) else s
  }

  /** Drops the trailing white space: what is left is a prefix of `s` that does not end
      with white space, and everything dropped was white space. */
  function TrimEnd(s: string): (r: string)
    ensures |r| <= |s| && r == s[..|r|]
    ensures r == [] || !IsWhitespace(r[|r| - 1])
    ensures forall i :: |r| <= i < |s| ==> IsWhitespace(s[i])
  {
    if s != [] && IsWhitespace(s[|s| - 1]) then TrimEnd(s[..|s| - 1]) else s
  }

  /** `r` is the stretch of `s` that starts at `k`, and everything of `s` before and after
      it is white space. */
  predicate KeptBetweenBlanks(s: string, k: int, r: string) {
    && 0 <= k && k + |r| <= |s|
    && (forall i :: 0 <= i < |r| ==> r[i] == s[k + i])
    && (forall i :: 0 <= i < k ==> IsWhitespace(s[i]))
    && (forall i :: k + |r| <= i < |s| ==> IsWhitespace(s[i]))
  }

  /** `s.trim()`: the stretch of `s` after its leading white space (the part `TrimStart`
      drops) and before its trailing white space; it has no white space at either end. */
  function Trim(s: string): (r: string)
    ensures |r| <= |s|
    ensures r == [] || (!IsWhitespace(r[0]) && !IsWhitespace(r[|r| - 1]))
    ensures KeptBetweenBlanks(s, |s| - |TrimStart(s)|, r)
  {
    MiddleSlice(s, TrimStart(s), TrimEnd(TrimStart(s)));
    TrimEnd(TrimStart(s))
  }

  /** Dropping white space `t` from the front of `s` and then `r` from the back of `t`
      keeps the characters of `s` between the two, and drops only white space. */
  lemma MiddleSlice(s: string, t: string, r: string)
    requires |t| <= |s| && t == s[|s| - |t|..]
    requires forall i :: 0 <= i < |s| - |t| ==> IsWhitespace(s[i])
    requires |r| <= |t| && r == t[..|r|]
    requires forall i :: |r| <= i < |t| ==> IsWhitespace(t[i])
    ensures KeptBetweenBlanks(s, |s| - |t|, r)
  {
    var k := |s| - |t|;
    forall i | k + |r| <= i < |s| ensures IsWhitespace(s[i]) {
      assert s[i] == t[i - k];
    }
  }

  /** `s.trim()` is the empty (falsy) string exactly when `s` is blank. */
  lemma TrimIsEmptyIffBlank(s: string)
    ensures Trim(s) == [] <==> IsBlank(s)
  {
    var t := TrimStart(s);
    if t != [] {
      // the first character kept is not white space, so neither end of `s` is all blank
      assert t[0] == s[|s| - |t|] && !IsWhitespace(t[0]);
    }
  }
}
