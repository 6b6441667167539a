/**
 * Lexicographic order on words, the order in which an in-order walk of the
 * ternary trie lists them (characters compared as `char` values).
 */
module WordOrder {

  /** x comes strictly before y: x is a proper prefix of y, or they first differ with x smaller. */
  predicate Less(x: string, y: string)
    decreases |x|
  {
    |y| > 0 && (|x| == 0 || x[0] < y[0] || (x[0] == y[0] && Less(x[1..], y[1..])))
  }

  /** Every earlier element is strictly before every later one. */
  ghost predicate StrictlySorted(s: seq<string>)
  {
    forall i, j | 0 <= i < j < |s| :: Less(s[i], s[j])
  }

  lemma {:induction false} LessIrreflexive(x: string)
    ensures !Less(x, x)
    decreases |x|
  {
    if |x| > 0 {
      LessIrreflexive(x[1..]);
    }
  }

  /** A common prefix does not change the order. */
  lemma {:induction false} LessSharedPrefix(p: string, a: string, b: string)
    ensures Less(p + a, p + b) <==> Less(a, b)
    decreases |p|
  {
    if |p| > 0 {
      assert (p + a)[1..] == p[1..] + a;
      assert (p + b)[1..] == p[1..] + b;
      LessSharedPrefix(p[1..], a, b);
    } else {
      assert p + a == a && p + b == b;
    }
  }

  /** A word comes before each of its proper extensions. */
  lemma {:induction false} LessExtension(p: string, x: string)
    requires |x| > 0
    ensures Less(p, p + x)
    decreases |p|
  {
    if |p| > 0 {
      assert (p + x)[1..] == p[1..] + x;
      LessExtension(p[1..], x);
    }
  }

  /** Words that share `p` and then differ in their next character are ordered by it. */
  lemma LessAfterPrefix(p: string, a: string, b: string)
    requires |a| > 0 && |b| > 0 && a[0] < b[0]
    ensures Less(p + a, p + b)
  {
    LessSharedPrefix(p, a, b);
  }

  /** A strictly sorted sequence lists no word twice. */
  lemma SortedDistinct(s: seq<string>)
    requires StrictlySorted(s)
    ensures forall i, j | 0 <= i < j < |s| :: s[i] != s[j]
  {
    forall i, j | 0 <= i < j < |s| ensures s[i] != s[j] {
      LessIrreflexive(s[i]);
    }
  }

  lemma SortedConcat(a: seq<string>, b: seq<string>)
    requires StrictlySorted(a) && StrictlySorted(b)
    requires forall x, y | x in a && y in b :: Less(x, y)
    ensures StrictlySorted(a + b)
  {
    forall i, j | 0 <= i < j < |a + b| ensures Less((a + b)[i], (a + b)[j]) {
      if j < |a| {
      } else if i >= |a| {
        assert (a + b)[i] == b[i - |a|] && (a + b)[j] == b[j - |a|];
      } else {
        assert (a + b)[i] in a && (a + b)[j] in b;
      }
    }
  }
}
