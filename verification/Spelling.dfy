/** Names as users write them, and as the server compares them. */
module Spelling {
  /** `tolower` */
  function Lower(c: char): char {
    if 'A' <= c <= 'Z' then c - 'A' + 'a' else c
  }

  /** What `strcasecmp` makes of a name: two names are the same if they fold to the same. */
  function Fold(s: string): string {
    seq(|s|, i requires 0 <= i < |s| => Lower(s[i]))
  }

  /** One ASCII letter, in upper case and in lower case. */
  predicate TwoCases(a: char, b: char) {
    || ('A' <= a <= 'Z' && 'a' <= b <= 'z' && b as int == a as int + 32)
    || ('a' <= a <= 'z' && 'A' <= b <= 'Z' && a as int == b as int + 32)
  }

  /** One name, in two spellings. */
  predicate SameName(s: string, t: string) {
    |s| == |t| && forall i | 0 <= i < |s| :: s[i] == t[i] || TwoCases(s[i], t[i])
  }

  lemma LowerSame(a: char, b: char)
    ensures Lower(a) == Lower(b) <==> a == b || TwoCases(a, b)
  {
  }

  /** Names fold to the same exactly if they differ in the case of ASCII letters only. */
  lemma FoldSame(s: string, t: string)
    ensures Fold(s) == Fold(t) <==> SameName(s, t)
  {
    forall a, b
      ensures Lower(a) == Lower(b) <==> a == b || TwoCases(a, b)
    {
      LowerSame(a, b);
    }
    if Fold(s) == Fold(t) {
      assert |s| == |Fold(s)| == |t|;
      forall i | 0 <= i < |s|
        ensures s[i] == t[i] || TwoCases(s[i], t[i])
      {
        assert Fold(s)[i] == Fold(t)[i];
      }
    }
    if SameName(s, t) {
      assert forall i | 0 <= i < |s| :: Fold(s)[i] == Fold(t)[i];
      assert Fold(s) == Fold(t);
    }
  }
}
