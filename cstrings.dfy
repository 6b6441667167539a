/**
 * C strings held in character arrays: the word an array holds ends at its
 * first NUL, which is where strlen stops and where every comparison of the
 * C code stops.
 */
module CStrings {

  /** The word a character array holds: its characters before the first '\0'. */
  function CWord(w: string): (r: string)
    ensures r <= w && '\0' !in r
    ensures |r| < |w| ==> w[|r|] == '\0'
  {
    if w == [] || w[0] == '\0' then [] else [w[0]] + CWord(w[1..])
  }

  /** An array without NUL holds exactly its own characters. */
  lemma CWordOfWord(w: string)
    requires '\0' !in w
    ensures CWord(w) == w
  {
  }

  /** What follows the first NUL never matters. */
  lemma {:induction false} CWordAfterNul(w: string, tail: string)
    requires '\0' !in w
    ensures CWord(w + ['\0'] + tail) == w
    decreases |w|
  {
    if w == [] {
      assert (w + ['\0'] + tail)[0] == '\0';
    } else {
      assert (w + ['\0'] + tail)[0] == w[0];
      assert (w + ['\0'] + tail)[1..] == w[1..] + ['\0'] + tail;
      assert w[0] in w;
      CWordAfterNul(w[1..], tail);
      assert [w[0]] + w[1..] == w;
    }
  }
}
