/**
 * The parts of java.lang.String and of plexus-utils' StringUtils that the
 * deployment goal relies on.
 */
module JavaStrings {
  import opened Optional

  /** A String-typed Java field or result; `None` is `null`. */
  type JString = Option<string>

  /** The number of characters at most U+0020 at the front of `s`. */
  function LeadingBlanks(s: string): (n: nat)
    ensures n <= |s|
    ensures forall i :: 0 <= i < n ==> s[i] <= ' '
    ensures n < |s| ==> ' ' < s[n]
  {
    if s == [] || ' ' < s[0] then 0 else 1 + LeadingBlanks(s[1..])
  }

  /** The number of characters at most U+0020 at the back of `s`. */
  function TrailingBlanks(s: string): (n: nat)
    ensures n <= |s|
    ensures forall i :: |s| - n <= i < |s| ==> s[i] <= ' '
    ensures n < |s| ==> ' ' < s[|s| - 1 - n]
  {
    if s == [] || ' ' < s[|s| - 1] then 0 else 1 + TrailingBlanks(s[..|s| - 1])
  }

  /**
   * String.trim(): removes every leading and trailing character whose code
   * is at most U+0020. What is left is a contiguous part of `s` and
   * everything cut off is such a character; nothing is left exactly when
   * every character is one, otherwise what is left starts and ends above it.
   */
  function Trim(s: string): (t: string)
    ensures exists lo, hi :: 0 <= lo <= hi <= |s| && t == s[lo..hi]
                             && (forall i :: 0 <= i < lo ==> s[i] <= ' ')
                             && (forall i :: hi <= i < |s| ==> s[i] <= ' ')
    ensures t == [] <==> forall i :: 0 <= i < |s| ==> s[i] <= ' '
    ensures t != [] ==> ' ' < t[0] && ' ' < t[|t| - 1]
  {
    var lo := LeadingBlanks(s);
    var hi := if lo < |s| - TrailingBlanks(s) then |s| - TrailingBlanks(s) else lo;
    var t := s[lo..hi];
    assert t != [] ==> t[0] == s[lo] && t[|t| - 1] == s[hi - 1];
    t
  }

  /**
   * StringUtils.isEmpty of plexus-utils: true for `null` and for a string
   * that is empty once trimmed.
   */
  predicate IsEmpty(s: JString)
    ensures s == None || s == Some("") ==> IsEmpty(s)
    ensures s.Some? && s.value != [] && ' ' < s.value[0] ==> !IsEmpty(s)
  {
    s.None? || |Trim(s.value)| == 0
  }

  /** A string is empty for StringUtils.isEmpty exactly when it is null or every character is at most U+0020. */
  lemma IsEmptyIffBlank(s: JString)
    ensures IsEmpty(s) <==> s.None? || forall i :: 0 <= i < |s.value| ==> s.value[i] <= ' '
  {
  }

  /** StringUtils.equals: two nulls are equal, a null equals no string, two strings compare by content. */
  function Equals(a: JString, b: JString): (r: bool)
    ensures r <==> a == b
  {
    match a
    case None => b.None?
    case Some(x) => b.Some? && x == b.value
  }
}
