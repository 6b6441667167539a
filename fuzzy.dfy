/**
 * The fuzzy matcher: the in-order walk of the trie that keeps the stored
 * words at a given edit distance from a base word
 * (palavrasPorDistanciaMinimaAux and palavrasPorDistanciaMinima).
 */
module FuzzyMatch {
  import opened Wrappers
  import opened TernaryTrie
  import opened WordOrder
  import opened Traversal
  import opened EditDistance
  import opened CStrings

  /**
   * The words of `s`, in their order, whose distance to `base` is `d`.  The
   * distance is measured on the C string each word holds, as strlen of the
   * buffer reads it.
   */
  function AtDistance(s: seq<string>, base: string, d: int): (r: seq<string>)
    ensures |r| <= |s|
    ensures forall x | x in r :: x in s
  {
    if s == [] then []
    else (if Distance(CWord(s[0]), base) == d then [s[0]] else []) + AtDistance(s[1..], base, d)
  }

  /** Keeping words of two runs one after the other keeps those of each run. */
  lemma {:induction false} AtDistanceConcat(a: seq<string>, b: seq<string>, base: string, d: int)
    ensures AtDistance(a + b, base, d) == AtDistance(a, base, d) + AtDistance(b, base, d)
    decreases |a|
  {
    if a != [] {
      assert (a + b)[0] == a[0];
      assert (a + b)[1..] == a[1..] + b;
      AtDistanceConcat(a[1..], b, base, d);
    } else {
      assert a + b == b;
    }
  }

  /** The filter keeps exactly the words at distance `d`. */
  lemma {:induction false} AtDistanceElements(s: seq<string>, base: string, d: int)
    ensures forall x :: x in AtDistance(s, base, d) <==> x in s && Distance(CWord(x), base) == d
    decreases |s|
  {
    if s != [] {
      AtDistanceElements(s[1..], base, d);
      assert s == [s[0]] + s[1..];
    }
  }

  /** The filter keeps the order of what it is given. */
  lemma {:induction false} AtDistanceSorted(s: seq<string>, base: string, d: int)
    requires StrictlySorted(s)
    ensures StrictlySorted(AtDistance(s, base, d))
    decreases |s|
  {
    if s != [] {
      var rest := s[1..];
      assert StrictlySorted(rest) by {
        forall i, j | 0 <= i < j < |rest| ensures Less(rest[i], rest[j]) {
          assert rest[i] == s[i + 1] && rest[j] == s[j + 1];
        }
      }
      AtDistanceSorted(rest, base, d);
      AtDistanceElements(rest, base, d);
      var head := if Distance(CWord(s[0]), base) == d then [s[0]] else [];
      forall x, y | x in head && y in AtDistance(rest, base, d) ensures Less(x, y) {
        var k :| 0 <= k < |rest| && rest[k] == y;
        assert s[k + 1] == y;
      }
      SortedConcat(head, AtDistance(rest, base, d));
    }
  }

  /** One level of the walk: the kept words of the lower subtree, the node, the centre and the upper subtree. */
  lemma AtDistanceLevel(t: Tst, path: string, base: string, d: int)
    requires t.Node?
    ensures AtDistance(InOrderWords(t, path), base, d)
      == AtDistance(InOrderWords(t.lo, path), base, d)
      + AtDistance(if t.end then [path + [t.c]] else [], base, d)
      + AtDistance(InOrderWords(t.eq, path + [t.c]), base, d)
      + AtDistance(InOrderWords(t.hi, path), base, d)
  {
    var L, M, R := InOrderWords(t.lo, path), InOrderWords(t.eq, path + [t.c]), InOrderWords(t.hi, path);
    var W := if t.end then [path + [t.c]] else [];
    assert InOrderWords(t, path) == L + W + M + R;
    AtDistanceConcat(L + W + M, R, base, d);
    AtDistanceConcat(L + W, M, base, d);
    AtDistanceConcat(L, W, base, d);
  }

  /** A single word is kept exactly when it is at distance `d`. */
  lemma AtDistanceSingle(x: string, base: string, d: int)
    ensures AtDistance([x], base, d) == (if Distance(CWord(x), base) == d then [x] else [])
  {
    assert [x][1..] == [];
  }

  /**
   * palavrasPorDistanciaMinimaAux: the in-order walk of percursoEmOrdem
   * that computes, at every terminating node, the distance between the C
   * string of the buffer (strlen stops at the '\0' written after
   * buffer[depth], or at an earlier NUL) and `base`, and keeps the buffered
   * word when the distance is `d`.
   */
  method CollectAtDistance(t: Tst, buf: array<char>, depth: nat, base: string, d: int) returns (out: seq<string>)
    requires depth + Height(t) < buf.Length
    modifies buf
    ensures buf[..depth] == old(buf[..depth])
    ensures out == AtDistance(InOrderWords(t, old(buf[..depth])), base, d)
    decreases t
  {
    if t.Nil? {
      return [];
    }
    ghost var path := buf[..depth];
    var left := CollectAtDistance(t.lo, buf, depth, base, d);
    buf[depth] := t.c;
    assert buf[..depth + 1] == path + [t.c];
    var here: seq<string> := [];
    if t.end {
      buf[depth + 1] := '\0';
      assert buf[..depth + 1] == path + [t.c];
      var dist := ComputeDistance(CWord(buf[..depth + 1]), base);
      if dist == d {
        here := [buf[..depth + 1]];
      }
    }
    var mid := CollectAtDistance(t.eq, buf, depth + 1, base, d);
    assert buf[..depth] == buf[..depth + 1][..depth] == path;
    var right := CollectAtDistance(t.hi, buf, depth, base, d);
    out := left + here + mid + right;
    AtDistanceLevel(t, path, base, d);
    if t.end {
      AtDistanceSingle(path + [t.c], base, d);
    }
  }

  /**
   * palavrasPorDistanciaMinima: an empty dictionary is rejected; otherwise
   * the walk from the root with an empty buffer.
   */
  method WordsAtDistance(root: Tst, base: string, d: int) returns (r: Option<seq<string>>)
    requires Height(root) < MAX_WORD_LEN
    ensures r == None <==> root == Nil
    ensures r.Some? ==> r.value == AtDistance(InOrderWords(root, []), base, d)
  {
    if root == Nil {
      return None;
    }
    var buf := new char[MAX_WORD_LEN];
    var words := CollectAtDistance(root, buf, 0, base, d);
    assert buf[..0] == [];
    r := Some(words);
  }

  /**
   * What the matcher promises: every stored word at distance `d` from
   * `base` and no other, each once, in ascending order.
   */
  lemma AtDistanceCorrect(t: Tst, base: string, d: int)
    requires Ordered(t)
    ensures forall w :: w in AtDistance(InOrderWords(t, []), base, d) <==> w in Words(t) && Distance(CWord(w), base) == d
    ensures StrictlySorted(AtDistance(InOrderWords(t, []), base, d))
  {
    IndexCorrect(t);
    AtDistanceElements(InOrderWords(t, []), base, d);
    AtDistanceSorted(InOrderWords(t, []), base, d);
  }
}
