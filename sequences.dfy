/** Bounded append: `push` followed by one `shift()` when the sequence has
    grown past its cap. The chat log (50 messages) and the canvas undo
    history (50 snapshots) both keep their newest entries this way. */
module Sequences {

  function AppendCapped<T>(s: seq<T>, x: T, cap: nat): (r: seq<T>)
    requires cap > 0
    // the newest entry is last, and what is kept is the newest part of s + [x]
    ensures |r| > 0 && r[|r| - 1] == x
    ensures |r| == if |s| + 1 > cap then |s| else |s| + 1
    ensures r == (s + [x])[|s| + 1 - |r|..]
  {
    var t := s + [x];
    if |t| > cap then t[1..] else t
  }

  /** A sequence within its cap stays within it, and a full one evicts exactly
      its oldest entry. */
  lemma AppendCappedBound<T>(s: seq<T>, x: T, cap: nat)
    requires 0 < cap && |s| <= cap
    ensures |AppendCapped(s, x, cap)| <= cap
    ensures |s| < cap ==> AppendCapped(s, x, cap) == s + [x]
    ensures |s| == cap ==> AppendCapped(s, x, cap) == s[1..] + [x]
  {
    var r := AppendCapped(s, x, cap);
    if |s| == cap {
      assert r == (s + [x])[1..];
      assert (s + [x])[1..] == s[1..] + [x];
    } else {
      assert r == (s + [x])[0..];
    }
  }
}
