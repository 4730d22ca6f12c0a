/**
 * The label typed into the inline editor: `input.value ? input.value.trim() : null`.
 */
module Labels {

  import opened Records

  /** ECMAScript WhiteSpace and LineTerminator code points, the ones `String.prototype.trim` strips. */
  predicate IsSpace(c: char) {
    || c == '\t' || c == '\U{000B}' || c == '\U{000C}' || c == ' ' || c == '\U{00A0}' || c == '\U{FEFF}'
    || c == '\n' || c == '\r' || c == '\U{2028}' || c == '\U{2029}'
    || c == '\U{1680}' || ('\U{2000}' <= c <= '\U{200A}') || c == '\U{202F}' || c == '\U{205F}' || c == '\U{3000}'
  }

  /** Length of the whitespace run at the start of `s`. */
  function LeadingSpaces(s: string): (n: nat)
    ensures n <= |s|
    ensures forall k | 0 <= k < n :: IsSpace(s[k])
    ensures n < |s| ==> !IsSpace(s[n])
    decreases |s|
  {
    if |s| == 0 || !IsSpace(s[0]) then 0
    else
      var n := LeadingSpaces(s[1..]);
      assert forall k | 1 <= k < n + 1 :: s[k] == s[1..][k - 1];
      n + 1
  }

  /** Length of the whitespace run at the end of `s`. */
  function TrailingSpaces(s: string): (n: nat)
    ensures n <= |s|
    ensures forall k | |s| - n <= k < |s| :: IsSpace(s[k])
    ensures n < |s| ==> !IsSpace(s[|s| - n - 1])
    decreases |s|
  {
    if |s| == 0 || !IsSpace(s[|s| - 1]) then 0
    else
      var n := TrailingSpaces(s[..|s| - 1]);
      assert forall k | 0 <= k < |s| - 1 :: s[k] == s[..|s| - 1][k];
      n + 1
  }

  /**
   * `String.prototype.trim`: the slice of `s` left after removing every
   * leading and trailing whitespace code point, and nothing else.
   */
  function Trim(s: string): (t: string)
    ensures |t| > 0 ==> !IsSpace(t[0]) && !IsSpace(t[|t| - 1])
    ensures LeadingSpaces(s) + |t| <= |s|
    ensures t == s[LeadingSpaces(s)..LeadingSpaces(s) + |t|]
    ensures forall k | LeadingSpaces(s) + |t| <= k < |s| :: IsSpace(s[k])
  {
    var i := LeadingSpaces(s);
    var u := s[i..];
    var j := TrailingSpaces(u);
    var t := u[..|u| - j];
    assert |t| == |s| - i - j;
    assert s[i..i + |t|] == t;
    assert forall k | i + |t| <= k < |s| :: u[k - i] == s[k];
    t
  }

  /** The label the editor's Add button passes on: `null` for an empty field, otherwise the trimmed text. */
  function LabelOf(input: string): (f: Field<string>)
    ensures f.Null? <==> input == ""
    ensures input != "" ==> f == Val(Trim(input))
  {
    if input == "" then Null else Val(Trim(input))
  }

  /** A whitespace-only entry is not `null`: it becomes the empty label. */
  lemma BlankInputGivesEmptyLabel(input: string)
    requires input != "" && forall k | 0 <= k < |input| :: IsSpace(input[k])
    ensures LabelOf(input) == Val("")
  {
    assert LeadingSpaces(input) == |input|;
  }
}
