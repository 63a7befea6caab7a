/** Whitespace trimming (src/utils/string_utils.h). */
module StringUtils {
  predicate IsSpace(c: char) {
    c == ' ' || c == '\t' || c == '\r' || c == '\n'
  }

  predicate AllSpace(s: string) {
    forall k | 0 <= k < |s| :: IsSpace(s[k])
  }

  /** The first position from `i` on that is not whitespace. */
  function FirstSolid(s: string, i: nat): (b: nat)
    requires i <= |s|
    ensures i <= b <= |s| && (b < |s| ==> !IsSpace(s[b]))
    ensures forall k | i <= k < b :: IsSpace(s[k])
    decreases |s| - i
  {
    if i < |s| && IsSpace(s[i]) then FirstSolid(s, i + 1) else i
  }

  /** The end of the last position before `j` that is not whitespace. */
  function SolidEnd(s: string, j: nat): (e: nat)
    requires j <= |s|
    ensures e <= j && (e > 0 ==> !IsSpace(s[e - 1]))
    ensures forall k | e <= k < j :: IsSpace(s[k])
  {
    if j > 0 && IsSpace(s[j - 1]) then SolidEnd(s, j - 1) else j
  }

  /** `t` is what is left of `s` between whitespace. */
  predicate Core(s: string, t: string, i: nat, j: nat) {
    i <= j <= |s| && t == s[i..j] && AllSpace(s[..i]) && AllSpace(s[j..])
  }

  /** `trim`: the part of `s` between its leading and trailing whitespace. */
  function Trim(s: string): (t: string)
    ensures t == "" <==> AllSpace(s)
    ensures t != "" ==> !IsSpace(t[0]) && !IsSpace(t[|t| - 1])
    ensures exists i: nat, j: nat {:trigger Core(s, t, i, j)} :: Core(s, t, i, j)
  {
    var b := FirstSolid(s, 0);
    var e := SolidEnd(s, |s|);
    if b == |s| then
      assert Core(s, "", b, b);
      ""
    else
      assert Core(s, s[b..e], b, e);
      s[b..e]
  }

  /** What is between blanks, tabs and line ends at both sides is what `trim` gives. */
  lemma TrimIs(s: string, i: nat, j: nat)
    requires i <= j <= |s| && (i < j ==> s[i] !in " \t\r\n" && s[j - 1] !in " \t\r\n")
    requires forall k | 0 <= k < |s| && !(i <= k < j) :: s[k] in " \t\r\n"
    ensures Trim(s) == s[i..j]
  {
    var b, e := FirstSolid(s, 0), SolidEnd(s, |s|);
    assert forall k | 0 <= k < |s| && !(i <= k < j) :: IsSpace(s[k]);
    if i < j {
      assert !IsSpace(s[i]) && !IsSpace(s[j - 1]);
      assert b == i && e == j;
    }
  }
}
