/** What Python's string methods take for white space. */
module Spaces {

  predicate IsSpace(n: int) {
    || 0x09 <= n <= 0x0D || 0x1C <= n <= 0x20 || n == 0x85 || n == 0xA0 || n == 0x1680
    || 0x2000 <= n <= 0x200A || n == 0x2028 || n == 0x2029 || n == 0x202F || n == 0x205F || n == 0x3000
  }

  /** `strip` from the left, then from the right. */
  function Strip(s: string): string {
    if s != "" && IsSpace(s[0] as int) then Strip(s[1..])
    else if s != "" && IsSpace(s[|s| - 1] as int) then Strip(s[..|s| - 1])
    else s
  }

  predicate AllSpace(s: string) {
    forall i :: 0 <= i < |s| ==> IsSpace(s[i] as int)
  }

  /** What is left has no white space at either end, and only white space was taken off. */
  lemma {:induction false} StripMeans(s: string) returns (before: string, behind: string)
    ensures s == before + Strip(s) + behind && AllSpace(before) && AllSpace(behind)
    ensures Strip(s) != "" ==> !IsSpace(Strip(s)[0] as int) && !IsSpace(Strip(s)[|Strip(s)| - 1] as int)
    decreases |s|
  {
    hide IsSpace;
    before, behind := "", "";
    if s != "" && IsSpace(s[0] as int) {
      before, behind := StripMeans(s[1..]);
      before := [s[0]] + before;
      assert s == [s[0]] + s[1..];
    } else if s != "" && IsSpace(s[|s| - 1] as int) {
      before, behind := StripMeans(s[..|s| - 1]);
      behind := behind + [s[|s| - 1]];
      assert s == s[..|s| - 1] + [s[|s| - 1]];
    }
  }
}
