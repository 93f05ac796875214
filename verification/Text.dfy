/** Searching a string, as std::string::find does. */
module Text {
  /** Position of the first c, or the length. */
  function Find(s: string, c: char): (p: nat)
    ensures p <= |s| && c !in s[..p] && (p < |s| ==> s[p] == c)
  {
    if s == "" || s[0] == c then 0 else 1 + Find(s[1..], c)
  }

  lemma {:induction false} FindIs(s: string, c: char, p: nat)
    requires p < |s| && s[p] == c && c !in s[..p]
    ensures Find(s, c) == p
  {
    if p > 0 {
      assert s[0] in s[..p];
      assert s[..p][1..] == s[1..][..p - 1];
      FindIs(s[1..], c, p - 1);
    }
  }
}
