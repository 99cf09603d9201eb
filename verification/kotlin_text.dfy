/** The Kotlin string functions the title derivation relies on. */
module KotlinText {

  /** `d` occurs in `s` starting at index `j`. */
  predicate OccursAt(s: string, d: string, j: int) {
    0 <= j && j + |d| <= |s| && s[j..j + |d|] == d
  }

  predicate Contains(s: string, d: string) {
    exists j :: 0 <= j <= |s| && OccursAt(s, d, j)
  }

  /** `s.lastIndexOf(d)`: the start of the last occurrence of `d`, or -1 when there is none. */
  function LastIndexOf(s: string, d: string): (r: int)
    requires d != []
    ensures r == -1 <==> !Contains(s, d)
    ensures r != -1 ==> OccursAt(s, d, r)
    ensures forall j :: r < j ==> !OccursAt(s, d, j)
    decreases |s|
  {
    if |s| < |d| then -1
    else if s[|s| - |d|..] == d then
      assert OccursAt(s, d, |s| - |d|);
      |s| - |d|
    else
      assert s[|s| - |d|..|s|] == s[|s| - |d|..];
      FrontOccurrences(s, d);
      LastIndexOf(s[..|s| - 1], d)
  }

  /** Dropping the last character keeps exactly the occurrences that end before it. */
  lemma FrontOccurrences(s: string, d: string)
    requires |s| > 0
    ensures forall j :: OccursAt(s[..|s| - 1], d, j) <==> OccursAt(s, d, j) && j + |d| < |s|
    ensures Contains(s, d) && !OccursAt(s, d, |s| - |d|) ==> Contains(s[..|s| - 1], d)
    ensures Contains(s[..|s| - 1], d) ==> Contains(s, d)
  {
    var front := s[..|s| - 1];
    forall j ensures OccursAt(front, d, j) <==> OccursAt(s, d, j) && j + |d| < |s| {
      if 0 <= j && j + |d| < |s| {
        assert front[j..j + |d|] == s[j..j + |d|];
      }
    }
    if Contains(s, d) && !OccursAt(s, d, |s| - |d|) {
      var j :| 0 <= j <= |s| && OccursAt(s, d, j);
      assert OccursAt(front, d, j);
    }
    if Contains(front, d) {
      var j :| 0 <= j <= |front| && OccursAt(front, d, j);
      assert OccursAt(s, d, j);
    }
  }

  /**
    `s.substringBeforeLast(d, missing)`: the part of `s` before the last occurrence of `d`, or
    `missing` when `d` does not occur.
   */
  function SubstringBeforeLast(s: string, d: string, missing: string): (r: string)
    requires d != []
    ensures !Contains(s, d) ==> r == missing
    ensures Contains(s, d) ==> |r| <= |s| && r == s[..|r|] && OccursAt(s, d, |r|)
    ensures Contains(s, d) ==> forall j :: |r| < j ==> !OccursAt(s, d, j)
  {
    var i := LastIndexOf(s, d);
    if i == -1 then missing else s[..i]
  }
}
