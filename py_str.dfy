/**
 * The two Python string primitives the harvester relies on: `s.rfind(c)` for a
 * one-character needle, and the substring test `sub in s`.
 */
module PyStr {

  /** Python's `s.rfind(c)`: the largest index holding `c`, or -1 when `c` does not occur. */
  function RFind(s: string, c: char): (r: int)
    ensures -1 <= r < |s|
    ensures r >= 0 ==> s[r] == c
    ensures forall j :: r < j < |s| ==> s[j] != c
  {
    if |s| == 0 then -1
    else if s[|s| - 1] == c then |s| - 1
    else RFind(s[..|s| - 1], c)
  }

  /**
   * Python's `sub in s` on two strings: true for the empty needle and for the whole
   * string, never for a needle longer than `s`.
   */
  predicate Contains(s: string, sub: string)
    ensures |sub| == 0 ==> Contains(s, sub)
    ensures sub == s ==> Contains(s, sub)
    ensures Contains(s, sub) ==> |sub| <= |s|
  {
    assert |sub| <= |s| ==> OccursAt(s, sub, 0) == (s[..|sub|] == sub);
    exists i :: 0 <= i <= |s| - |sub| && OccursAt(s, sub, i)
  }

  /** `sub` occurs in `s` starting at index `i`. */
  predicate OccursAt(s: string, sub: string, i: int)
    requires 0 <= i <= |s| - |sub|
  {
    s[i..i + |sub|] == sub
  }

  /** `c` occurs in `s` somewhere after the first position. */
  ghost predicate OccursAfterStart(s: string, c: char) {
    exists i :: 0 < i < |s| && s[i] == c
  }

  /** `s` is `head + [c] + tail` split around the LAST occurrence of `c`. */
  ghost predicate IsLastSplit(s: string, c: char, head: string, tail: string) {
    s == head + [c] + tail && c !in tail
  }

  /** The guard `s.rfind(c) > 0` holds exactly when `c` occurs after index 0. */
  lemma RFindPositive(s: string, c: char)
    ensures RFind(s, c) > 0 <==> OccursAfterStart(s, c)
  {
    var r := RFind(s, c);
    if OccursAfterStart(s, c) {
      var i :| 0 < i < |s| && s[i] == c;
      assert r >= i;
    }
  }

  /** Cutting at `rfind` yields the last split of `s`. */
  lemma RFindSplits(s: string, c: char)
    requires RFind(s, c) >= 0
    ensures IsLastSplit(s, c, s[..RFind(s, c)], s[RFind(s, c) + 1..])
  {
    var r := RFind(s, c);
    assert s == s[..r] + [c] + s[r + 1..];
  }

  /** Conversely, any last split of `s` sits where `rfind` points. */
  lemma RFindOfLastSplit(s: string, c: char, head: string, tail: string)
    requires IsLastSplit(s, c, head, tail)
    ensures RFind(s, c) == |head|
  {
    var r := RFind(s, c);
    assert s[|head|] == c;
  }

  /** A string has at most one last split around `c`. */
  lemma LastSplitUnique(s: string, c: char, h1: string, t1: string, h2: string, t2: string)
    requires IsLastSplit(s, c, h1, t1) && IsLastSplit(s, c, h2, t2)
    ensures h1 == h2 && t1 == t2
  {
    RFindOfLastSplit(s, c, h1, t1);
    RFindOfLastSplit(s, c, h2, t2);
    assert h1 == s[..|h1|];
    assert h2 == s[..|h2|];
    assert t1 == s[|h1| + 1..];
    assert t2 == s[|h2| + 1..];
  }
}
