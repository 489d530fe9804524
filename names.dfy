/**
  Playlist names are matched without regard to case. The player compares
  lowered names everywhere a playlist is looked up; `SameName` is that one
  comparison, with lowering restricted to the ASCII letters.
 */
module Names {

  /** The lower-case form of an ASCII capital; every other character is kept. */
  function LowerChar(c: char): char
  {
    if 'A' <= c <= 'Z' then (c as int - 'A' as int + 'a' as int) as char else c
  }

  /** The name with every ASCII capital lowered. */
  function Lower(s: string): string
  {
    seq(|s|, i requires 0 <= i < |s| => LowerChar(s[i]))
  }

  /** Two playlist names denote the same playlist. */
  predicate SameName(a: string, b: string)
  {
    Lower(a) == Lower(b)
  }

  /** Names match exactly when they have equal length and match letter by letter. */
  lemma SameNameCharwise(a: string, b: string)
    ensures SameName(a, b) <==>
      |a| == |b| && forall i :: 0 <= i < |a| ==> LowerChar(a[i]) == LowerChar(b[i])
  {
    if |a| == |b| && forall i :: 0 <= i < |a| ==> LowerChar(a[i]) == LowerChar(b[i]) {
      assert forall i :: 0 <= i < |a| ==> Lower(a)[i] == Lower(b)[i];
    }
    if SameName(a, b) {
      assert |Lower(a)| == |Lower(b)|;
      forall i | 0 <= i < |a|
        ensures LowerChar(a[i]) == LowerChar(b[i])
      {
        assert Lower(a)[i] == Lower(b)[i];
      }
    }
  }

  /** Spellings of one playlist name that differ only in the case of their letters match. */
  lemma CaseVariantsMatch()
    ensures SameName("My List", "my list")
    ensures SameName("My List", "MY LIST")
    ensures SameName("My List", "my LIST")
    ensures !SameName("My List", "My Lists")
  {
  }
}
