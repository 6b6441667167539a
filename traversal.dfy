/**
 * Traversals of the ternary trie: the in-order listing of every word
 * (percursoEmOrdem), the prefix walk that lists completions
 * (palavrasComPrefixo) and the longest stored prefix of a word
 * (prefixoMaisLongo).  The C code writes a shared character buffer; the
 * methods here keep that buffer as an `array<char>` and return the words it
 * would print as a sequence.
 */
module Traversal {
  import opened Wrappers
  import opened TernaryTrie
  import opened WordOrder

  // ------------------------------------------------------------------
  // In-order listing
  // ------------------------------------------------------------------

  /**
   * The words of `t`, each preceded by `path`, in the order of the walk:
   * lower subtree, this node, centre subtree, upper subtree.
   */
  function InOrderWords(t: Tst, path: string): seq<string>
  {
    match t
    case Nil => []
    case Node(c, e, lo, eq, hi) =>
      InOrderWords(lo, path) + (if e then [path + [c]] else []) + InOrderWords(eq, path + [c]) + InOrderWords(hi, path)
  }

  /** Number of nodes that end a word. */
  function EndCount(t: Tst): nat
  {
    match t
    case Nil => 0
    case Node(_, e, lo, eq, hi) => EndCount(lo) + (if e then 1 else 0) + EndCount(eq) + EndCount(hi)
  }

  /** The walk reports one word per terminating node, whatever the path. */
  lemma {:induction false} InOrderLength(t: Tst, path: string)
    ensures |InOrderWords(t, path)| == EndCount(t)
  {
    match t
    case Nil =>
    case Node(c, _, lo, eq, hi) =>
      InOrderLength(lo, path);
      InOrderLength(eq, path + [c]);
      InOrderLength(hi, path);
  }

  lemma SplitPrefixed(p: string, s: set<string>, x: string)
    requires x in Prefixed(p, s)
    ensures x == p + x[|p|..] && x[|p|..] in s
  {
    PrefixedMember(p, s, x);
    assert x == p + x[|p|..];
  }

  /** The walk lists exactly the stored words, each preceded by the path. */
  lemma {:induction false} InOrderElements(t: Tst, path: string)
    ensures forall x :: x in InOrderWords(t, path) <==> x in Prefixed(path, Words(t))
  {
    match t
    case Nil =>
    case Node(c, e, lo, eq, hi) =>
      InOrderElements(lo, path);
      InOrderElements(eq, path + [c]);
      InOrderElements(hi, path);
      forall x ensures x in InOrderWords(t, path) <==> x in Prefixed(path, Words(t)) {
        PrefixedMember(path, Words(t), x);
        PrefixedMember(path, Words(lo), x);
        PrefixedMember(path, Words(hi), x);
        PrefixedMember(path + [c], Words(eq), x);
        if path <= x {
          var rest := x[|path|..];
          PrefixedMember([c], Words(eq), rest);
          if [c] <= rest {
            assert rest[1..] == x[|path| + 1..];
            assert path + [c] <= x;
          }
          if path + [c] <= x {
            assert [c] <= rest;
          }
          if x == path + [c] {
            assert rest == [c];
          }
          if rest == [c] {
            assert x == path + [c];
          }
        }
      }
  }

  /** Words listed below `path` whose next character satisfies a bound set by the subtree's ordering. */
  lemma ListedBelow(lo: Tst, path: string, c: char)
    requires forall w | w in Words(lo) :: |w| > 0 && w[0] < c
    ensures forall x | x in InOrderWords(lo, path) :: path <= x && |x| > |path| && x[|path|] < c
  {
    InOrderElements(lo, path);
    forall x | x in InOrderWords(lo, path) ensures path <= x && |x| > |path| && x[|path|] < c {
      SplitPrefixed(path, Words(lo), x);
    }
  }

  lemma ListedAbove(hi: Tst, path: string, c: char)
    requires forall w | w in Words(hi) :: |w| > 0 && w[0] > c
    ensures forall x | x in InOrderWords(hi, path) :: path <= x && |x| > |path| && x[|path|] > c
  {
    InOrderElements(hi, path);
    forall x | x in InOrderWords(hi, path) ensures path <= x && |x| > |path| && x[|path|] > c {
      SplitPrefixed(path, Words(hi), x);
    }
  }

  /** The centre subtree lists proper extensions of path + [c]. */
  lemma ListedCentre(eq: Tst, q: string)
    ensures forall x | x in InOrderWords(eq, q) :: q <= x && |x| > |q|
  {
    InOrderElements(eq, q);
    WordsNonEmpty(eq);
    forall x | x in InOrderWords(eq, q) ensures q <= x && |x| > |q| {
      SplitPrefixed(q, Words(eq), x);
    }
  }

  /** Two words that agree up to `path` and then differ are ordered by the next character. */
  lemma LessAcross(path: string, x: string, y: string)
    requires path <= x && path <= y && |x| > |path| && |y| > |path| && x[|path|] < y[|path|]
    ensures Less(x, y)
  {
    assert x == path + x[|path|..] && y == path + y[|path|..];
    LessAfterPrefix(path, x[|path|..], y[|path|..]);
  }

  /** One level of the walk: lower words, the node's word, centre words, upper words. */
  lemma SortedLevel(path: string, c: char, L: seq<string>, E: seq<string>, M: seq<string>, R: seq<string>)
    requires StrictlySorted(L) && StrictlySorted(M) && StrictlySorted(R)
    requires E == [] || E == [path + [c]]
    requires forall x | x in L :: path <= x && |x| > |path| && x[|path|] < c
    requires forall x | x in M :: path + [c] <= x && |x| > |path| + 1
    requires forall x | x in R :: path <= x && |x| > |path| && x[|path|] > c
    ensures StrictlySorted(L + E + M + R)
  {
    var q := path + [c];
    forall x, y | x in L && y in E ensures Less(x, y) {
      LessAcross(path, x, y);
    }
    SortedConcat(L, E);
    SortedCentre(path, c, L + E, M);
    forall x, y | x in L + E + M && y in R ensures Less(x, y) {
      if x !in L {
        assert q <= x && x[|path|] == q[|path|] == c;
      }
      LessAcross(path, x, y);
    }
    SortedConcat(L + E + M, R);
  }

  lemma SortedCentre(path: string, c: char, A: seq<string>, M: seq<string>)
    requires StrictlySorted(A) && StrictlySorted(M)
    requires forall x | x in A :: x == path + [c] || (path <= x && |x| > |path| && x[|path|] < c)
    requires forall x | x in M :: path + [c] <= x && |x| > |path| + 1
    ensures StrictlySorted(A + M)
  {
    var q := path + [c];
    forall x, y | x in A && y in M ensures Less(x, y) {
      if x == q {
        assert y == q + y[|q|..];
        LessExtension(q, y[|q|..]);
      } else {
        assert y[|path|] == q[|path|] == c;
        LessAcross(path, x, y);
      }
    }
    SortedConcat(A, M);
  }

  /** On an ordered trie the walk lists the words in strictly ascending order. */
  lemma {:induction false} InOrderSorted(t: Tst, path: string)
    requires Ordered(t)
    ensures StrictlySorted(InOrderWords(t, path))
  {
    match t
    case Nil =>
    case Node(c, e, lo, eq, hi) =>
      InOrderSorted(lo, path);
      InOrderSorted(eq, path + [c]);
      InOrderSorted(hi, path);
      ListedBelow(lo, path, c);
      ListedCentre(eq, path + [c]);
      ListedAbove(hi, path, c);
      SortedLevel(path, c, InOrderWords(lo, path), if e then [path + [c]] else [],
        InOrderWords(eq, path + [c]), InOrderWords(hi, path));
  }

  /**
   * percursoEmOrdem / imprimirIndice: every stored word is listed exactly
   * once, in ascending order.
   */
  lemma IndexCorrect(t: Tst)
    requires Ordered(t)
    ensures forall w :: w in InOrderWords(t, []) <==> w in Words(t)
    ensures StrictlySorted(InOrderWords(t, []))
    ensures forall i, j | 0 <= i < j < |InOrderWords(t, [])| :: InOrderWords(t, [])[i] != InOrderWords(t, [])[j]
  {
    InOrderElements(t, []);
    forall w ensures w in Prefixed([], Words(t)) <==> w in Words(t) {
      PrefixedMember([], Words(t), w);
      assert w[0..] == w;
    }
    InOrderSorted(t, []);
    SortedDistinct(InOrderWords(t, []));
  }

  /**
   * percursoEmOrdem: walk the lower subtree at the same depth, write the
   * character at buffer[depth], report buffer[..depth + 1] when a word ends
   * here, walk the centre at depth + 1 and the upper subtree at the same
   * depth.  The characters below `depth` are the path and stay untouched.
   */
  method CollectInOrder(t: Tst, buf: array<char>, depth: nat) returns (out: seq<string>)
    requires depth + Height(t) < buf.Length
    modifies buf
    ensures buf[..depth] == old(buf[..depth])
    ensures out == InOrderWords(t, old(buf[..depth]))
    decreases t
  {
    if t.Nil? {
      return [];
    }
    ghost var path := buf[..depth];
    var left := CollectInOrder(t.lo, buf, depth);
    buf[depth] := t.c;
    assert buf[..depth + 1] == path + [t.c];
    var here: seq<string> := [];
    if t.end {
      buf[depth + 1] := '\0';
      assert buf[..depth + 1] == path + [t.c];
      here := [buf[..depth + 1]];
    }
    var mid := CollectInOrder(t.eq, buf, depth + 1);
    assert buf[..depth] == buf[..depth + 1][..depth] == path;
    var right := CollectInOrder(t.hi, buf, depth);
    out := left + here + mid + right;
  }

  /** imprimirIndice: the in-order walk from the root with an empty buffer. */
  method ListAll(root: Tst) returns (words: seq<string>)
    requires Ordered(root) && Height(root) < MAX_WORD_LEN
    ensures words == InOrderWords(root, [])
    ensures forall w :: w in words <==> w in Words(root)
    ensures StrictlySorted(words)
  {
    var buf := new char[MAX_WORD_LEN];
    words := CollectInOrder(root, buf, 0);
    IndexCorrect(root);
  }

  // ------------------------------------------------------------------
  // Following a word down the trie
  // ------------------------------------------------------------------

  /**
   * The inner `while` of the prefix walks: search one level for `ch`
   * through lower and upper children; Nil when it is missing.
   */
  function Find(t: Tst, ch: char): (n: Tst)
    ensures n.Nil? || n.c == ch
    ensures Height(n) <= Height(t)
    decreases t
  {
    match t
    case Nil => Nil
    case Node(c, _, lo, _, hi) =>
      if ch < c then Find(lo, ch) else if ch > c then Find(hi, ch) else t
  }

  /** The node found on an ordered level is itself the root of an ordered subtree. */
  lemma {:induction false} FindOrdered(t: Tst, ch: char)
    requires Ordered(t)
    ensures Ordered(Find(t, ch))
    decreases t
  {
    match t
    case Nil =>
    case Node(c, _, lo, _, hi) =>
      if ch < c {
        FindOrdered(lo, ch);
      } else if ch > c {
        FindOrdered(hi, ch);
      }
  }

  /**
   * The inner `while` of the prefix walks: move to the lower or upper child
   * until the node holds `ch` or the slot is NULL.
   */
  method SearchLevel(level: Tst, ch: char) returns (node: Tst)
    ensures node == Find(level, ch)
  {
    node := level;
    while node != Nil && node.c != ch
      invariant Find(node, ch) == Find(level, ch)
      decreases node
    {
      if ch < node.c {
        node := node.lo;
      } else {
        node := node.hi;
      }
    }
  }

  /** The level reached after matching every character of `p`; Nil once one is missing. */
  function Follow(t: Tst, p: string): (level: Tst)
    decreases |p|
  {
    if p == [] then t
    else
      var n := Find(t, p[0]);
      if n.Nil? then Nil else Follow(n.eq, p[1..])
  }

  /** The node that matches the last character of `p`, or Nil. */
  function Descend(t: Tst, p: string): (n: Tst)
    requires |p| > 0
  {
    Find(Follow(t, p[..|p| - 1]), p[|p| - 1])
  }

  /** Searching the level first does not change lookup. */
  lemma {:induction false} FindLookup(t: Tst, w: string)
    requires |w| > 0
    ensures Lookup(t, w) == Lookup(Find(t, w[0]), w)
    decreases t
  {
    match t
    case Nil =>
    case Node(c, _, lo, _, hi) =>
      if w[0] < c {
        FindLookup(lo, w);
      } else if w[0] > c {
        FindLookup(hi, w);
      }
  }

  /** One more character: search the level reached so far and step to the centre child. */
  lemma {:induction false} FollowSnoc(t: Tst, p: string, x: char)
    ensures Follow(t, p + [x]) == (var n := Find(Follow(t, p), x); if n.Nil? then Nil else n.eq)
    decreases |p|
  {
    if p == [] {
      assert p + [x] == [x];
      assert [x][1..] == [];
    } else {
      assert (p + [x])[0] == p[0];
      assert (p + [x])[1..] == p[1..] + [x];
      var n := Find(t, p[0]);
      if n.Node? {
        FollowSnoc(n.eq, p[1..], x);
      }
    }
  }

  /** Lookup of `p` answers the flag of the node reached by `p`. */
  lemma {:induction false} LookupViaDescend(t: Tst, p: string)
    requires |p| > 0
    ensures Lookup(t, p) <==> Descend(t, p).Node? && Descend(t, p).end
    decreases |p|
  {
    FindLookup(t, p);
    var n := Find(t, p[0]);
    if |p| > 1 {
      var init := p[..|p| - 1];
      assert init[0] == p[0];
      assert init[1..] == p[1..][..|p[1..]| - 1];
      if n.Node? {
        LookupViaDescend(n.eq, p[1..]);
      }
    }
  }

  /** Lookup of `p + x` is lookup of `x` in the level reached by `p`. */
  lemma {:induction false} LookupViaFollow(t: Tst, p: string, x: string)
    requires |x| > 0
    ensures Lookup(t, p + x) == Lookup(Follow(t, p), x)
    decreases |p|
  {
    if p == [] {
      assert p + x == x;
    } else {
      FindLookup(t, p + x);
      assert (p + x)[0] == p[0];
      assert (p + x)[1..] == p[1..] + x;
      var n := Find(t, p[0]);
      if n.Node? {
        LookupViaFollow(n.eq, p[1..], x);
      }
    }
  }

  /** The level reached by `p` is the centre child of the node reached by `p`. */
  lemma FollowDescend(t: Tst, p: string)
    requires |p| > 0
    ensures Follow(t, p) == (var n := Descend(t, p); if n.Nil? then Nil else n.eq)
  {
    FollowSnoc(t, p[..|p| - 1], p[|p| - 1]);
    assert p[..|p| - 1] + [p[|p| - 1]] == p;
  }

  lemma {:induction false} FollowOrdered(t: Tst, p: string)
    requires Ordered(t)
    ensures Ordered(Follow(t, p))
    decreases |p|
  {
    if p != [] {
      var n := Find(t, p[0]);
      FindOrdered(t, p[0]);
      if n.Node? {
        FollowOrdered(n.eq, p[1..]);
      }
    }
  }

  /** Every matched character is one centre step: the height left shrinks by one per character. */
  lemma {:induction false} FollowHeight(t: Tst, p: string)
    requires Follow(t, p).Node?
    ensures |p| + Height(Follow(t, p)) <= Height(t)
    decreases |p|
  {
    if p != [] {
      var n := Find(t, p[0]);
      FollowHeight(n.eq, p[1..]);
    }
  }

  lemma DescendHeight(t: Tst, p: string)
    requires |p| > 0 && Descend(t, p).Node?
    ensures |p| + Height(Descend(t, p).eq) <= Height(t)
  {
    var init := p[..|p| - 1];
    if init == [] {
    } else {
      FollowHeight(t, init);
    }
  }

  // ------------------------------------------------------------------
  // Words with a prefix
  // ------------------------------------------------------------------

  /**
   * What the prefix walk promises to report: the prefix itself when it is
   * stored, then every longer stored word that starts with it, in order.
   */
  function PrefixListing(t: Tst, p: string): seq<string>
    requires |p| > 0
  {
    var n := Descend(t, p);
    if n.Nil? then [] else (if n.end then [p] else []) + InOrderWords(n.eq, p)
  }

  /** The node reached by an ordered trie's prefix roots an ordered subtree. */
  lemma DescendOrdered(t: Tst, p: string)
    requires Ordered(t) && |p| > 0
    ensures Ordered(Descend(t, p))
  {
    FollowOrdered(t, p[..|p| - 1]);
    FindOrdered(Follow(t, p[..|p| - 1]), p[|p| - 1]);
  }

  /** The prefix itself is listed exactly when it is stored. */
  lemma ListingPrefixItself(t: Tst, p: string)
    requires Ordered(t) && |p| > 0
    ensures p in PrefixListing(t, p) <==> p in Words(t)
  {
    var n := Descend(t, p);
    LookupCorrect(t, p);
    LookupViaDescend(t, p);
    if n.Node? {
      ListedCentre(n.eq, p);
    }
  }

  /** A proper extension p + rest is listed exactly when it is stored. */
  lemma ListingExtension(t: Tst, p: string, rest: string)
    requires Ordered(t) && |p| > 0 && |rest| > 0
    ensures p + rest in PrefixListing(t, p) <==> p + rest in Words(t)
  {
    var n := Descend(t, p);
    var x := p + rest;
    LookupCorrect(t, x);
    LookupViaFollow(t, p, rest);
    FollowDescend(t, p);
    if n.Node? {
      DescendOrdered(t, p);
      LookupCorrect(n.eq, rest);
      InOrderElements(n.eq, p);
      PrefixedMember(p, Words(n.eq), x);
      assert x[|p|..] == rest;
    }
  }

  /** Only words that start with `p` are listed. */
  lemma ListingHasPrefix(t: Tst, p: string)
    requires |p| > 0
    ensures forall x | x in PrefixListing(t, p) :: p <= x
  {
    var n := Descend(t, p);
    if n.Node? {
      ListedCentre(n.eq, p);
    }
  }

  /** The listing holds exactly the stored words that start with `p`. */
  lemma PrefixListingElements(t: Tst, p: string)
    requires Ordered(t) && |p| > 0
    ensures forall x :: x in PrefixListing(t, p) <==> x in Words(t) && p <= x
  {
    ListingHasPrefix(t, p);
    forall x ensures x in PrefixListing(t, p) <==> x in Words(t) && p <= x {
      if x == p {
        ListingPrefixItself(t, p);
      } else if p <= x {
        ListingExtension(t, p, x[|p|..]);
        assert p + x[|p|..] == x;
      }
    }
  }

  /** The prefix, when stored, comes before its extensions, which come in order. */
  lemma HeadThenCompletions(n: Tst, p: string)
    requires n.Node? && Ordered(n.eq)
    ensures StrictlySorted((if n.end then [p] else []) + InOrderWords(n.eq, p))
  {
    InOrderSorted(n.eq, p);
    ListedCentre(n.eq, p);
    var head := if n.end then [p] else [];
    forall x, y | x in head && y in InOrderWords(n.eq, p) ensures Less(x, y) {
      assert y == p + y[|p|..];
      LessExtension(p, y[|p|..]);
    }
    SortedConcat(head, InOrderWords(n.eq, p));
  }

  lemma PrefixListingSorted(t: Tst, p: string)
    requires Ordered(t) && |p| > 0
    ensures StrictlySorted(PrefixListing(t, p))
  {
    var n := Descend(t, p);
    if n.Node? {
      DescendOrdered(t, p);
      HeadThenCompletions(n, p);
    }
  }

  /**
   * palavrasComPrefixo promises every stored word that starts with the
   * prefix, each once, in ascending order.
   */
  lemma PrefixListingCorrect(t: Tst, p: string)
    requires Ordered(t) && |p| > 0
    ensures forall x :: x in PrefixListing(t, p) <==> x in Words(t) && p <= x
    ensures StrictlySorted(PrefixListing(t, p))
  {
    PrefixListingElements(t, p);
    PrefixListingSorted(t, p);
  }

  /**
   * palavrasComPrefixo, with the completion walk started on a buffer that
   * holds the prefix: descend on the prefix characters (the `for` over the
   * prefix with the inner `while` over one level, `SearchLevel`) and, at the node of the
   * last character, list the prefix if it is stored and walk the centre
   * child in order.  An empty prefix is rejected.
   */
  method WordsWithPrefix(root: Tst, p: string) returns (r: Option<seq<string>>)
    requires Height(root) < MAX_WORD_LEN && |p| < MAX_WORD_LEN
    ensures r == None <==> |p| == 0
    ensures r.Some? ==> r.value == PrefixListing(root, p)
  {
    if |p| == 0 {
      return None;
    }
    var buf := new char[MAX_WORD_LEN](k => if 0 <= k < |p| then p[k] else '\0');
    assert buf[..|p|] == p;
    var listing: seq<string> := [];
    var node := root;
    for i := 0 to |p|
      invariant i < |p| ==> node == Follow(root, p[..i]) && listing == [] && buf[..|p|] == p
      invariant i == |p| ==> listing == PrefixListing(root, p)
    {
      var found := SearchLevel(node, p[i]);
      FollowSnoc(root, p[..i], p[i]);
      assert p[..i] + [p[i]] == p[..i + 1];
      assert i == |p| - 1 ==> p[..|p| - 1] == p[..i];
      if found != Nil {
        if i == |p| - 1 {
          DescendHeight(root, p);
          var rest := CollectInOrder(found.eq, buf, |p|);
          listing := (if found.end then [p] else []) + rest;
        } else {
          node := found.eq;
        }
      } else {
        node := Nil;
      }
    }
    r := Some(listing);
  }

  // ------------------------------------------------------------------
  // Longest stored prefix
  // ------------------------------------------------------------------

  /** Length of the longest prefix of w[..k] that belongs to `s`; 0 when there is none. */
  ghost function LongestStored(s: set<string>, w: string, k: nat): (n: nat)
    requires k <= |w|
    ensures n <= k
    ensures n == 0 || w[..n] in s
    ensures forall j | n < j <= k :: w[..j] !in s
  {
    if k == 0 then 0 else if w[..k] in s then k else LongestStored(s, w, k - 1)
  }

  /** Length of the longest prefix of w[..k] whose node ends a word; 0 when there is none. */
  function LongestFound(t: Tst, w: string, k: nat): (n: nat)
    requires k <= |w|
    ensures n <= k
  {
    if k == 0 then 0
    else if Descend(t, w[..k]).Node? && Descend(t, w[..k]).end then k
    else LongestFound(t, w, k - 1)
  }

  /** On an ordered trie, a word is stored exactly when the node it reaches ends a word. */
  lemma FoundIffStored(t: Tst, p: string)
    requires Ordered(t) && |p| > 0
    ensures Descend(t, p).Node? && Descend(t, p).end <==> p in Words(t)
  {
    LookupViaDescend(t, p);
    LookupCorrect(t, p);
  }

  /** Node flags that agree with membership in `s` give the same longest prefix. */
  lemma {:induction false} LongestFoundMatches(t: Tst, w: string, k: nat, s: set<string>)
    requires k <= |w|
    requires forall j | 0 < j <= k :: (Descend(t, w[..j]).Node? && Descend(t, w[..j]).end <==> w[..j] in s)
    ensures LongestFound(t, w, k) == LongestStored(s, w, k)
  {
    if k > 0 {
      LongestFoundMatches(t, w, k - 1, s);
    }
  }

  /** On an ordered trie, what the walk finds is what is stored. */
  lemma LongestFoundStored(t: Tst, w: string, k: nat)
    requires Ordered(t) && k <= |w|
    ensures LongestFound(t, w, k) == LongestStored(Words(t), w, k)
  {
    forall j | 0 < j <= k
      ensures Descend(t, w[..j]).Node? && Descend(t, w[..j]).end <==> w[..j] in Words(t)
    {
      FoundIffStored(t, w[..j]);
    }
    LongestFoundMatches(t, w, k, Words(t));
  }

  /**
   * prefixoMaisLongo promises the longest prefix of `w` that is a stored
   * word: it is a prefix, it is stored (or empty when none is), and no
   * longer prefix is stored.
   */
  lemma LongestPrefixCorrect(t: Tst, w: string)
    requires Ordered(t)
    ensures LongestFound(t, w, |w|) == 0 || w[..LongestFound(t, w, |w|)] in Words(t)
    ensures forall k | LongestFound(t, w, |w|) < k <= |w| :: w[..k] !in Words(t)
  {
    LongestFoundStored(t, w, |w|);
  }

  /**
   * One character further along `w`: the level reached moves to the centre
   * child of the node found for w[i], and w[..i + 1] is found exactly when
   * that node ends a word.
   */
  lemma FollowStep(t: Tst, w: string, i: nat)
    requires i < |w|
    ensures var n := Find(Follow(t, w[..i]), w[i]);
      && Follow(t, w[..i + 1]) == (if n.Nil? then Nil else n.eq)
      && (n.Node? ==> 1 + Height(n.eq) <= Height(Follow(t, w[..i])))
      && LongestFound(t, w, i + 1) == (if n.Node? && n.end then i + 1 else LongestFound(t, w, i))
  {
    FollowSnoc(t, w[..i], w[i]);
    assert w[..i] + [w[i]] == w[..i + 1];
    assert w[..i + 1][..i] == w[..i];
  }

  /**
   * The walk of prefixoMaisLongo as intended, from character i on, at level
   * `node` with `len` characters matched: its answer is the length `last`
   * recorded at the latest terminating node when the word runs out.
   */
  function LongestWalk(node: Tst, w: string, i: nat, len: nat, last: nat): (n: nat)
    requires i <= |w| && last <= len
    ensures last <= n
    decreases |w| - i
  {
    if i == |w| then last
    else
      var found := Find(node, w[i]);
      if found.Nil? then LongestWalk(Nil, w, i + 1, len, last)
      else LongestWalk(found.eq, w, i + 1, len + 1, if found.end then len + 1 else last)
  }

  /** Walked from the level reached by w[..i], the walk completes the longest stored prefix. */
  lemma {:induction false} LongestWalkFound(t: Tst, w: string, i: nat, node: Tst, len: nat, last: nat)
    requires i <= |w| && last <= len
    requires node == Follow(t, w[..i]) && (node != Nil ==> len == i)
    requires last == LongestFound(t, w, i)
    ensures LongestWalk(node, w, i, len, last) == LongestFound(t, w, |w|)
    decreases |w| - i
  {
    if i < |w| {
      FollowStep(t, w, i);
      var found := Find(node, w[i]);
      if found.Nil? {
        LongestWalkFound(t, w, i + 1, Nil, len, last);
      } else {
        LongestWalkFound(t, w, i + 1, found.eq, len + 1, if found.end then len + 1 else last);
      }
    } else {
      assert w[..i] == w;
    }
  }

  /**
   * prefixoMaisLongo, with the length at the last terminating node recorded
   * instead of a '\0' marker: walk the word as lookup does, copy each matched
   * character into the buffer and note the length whenever the node ends a
   * word.  An empty word is rejected.
   */
  method LongestPrefix(root: Tst, w: string) returns (r: Option<string>)
    requires Height(root) < MAX_WORD_LEN
    ensures r == None <==> |w| == 0
    ensures r.Some? ==> r.value == w[..LongestFound(root, w, |w|)]
  {
    if |w| == 0 {
      return None;
    }
    var buf := new char[MAX_WORD_LEN];
    var len, last := 0, 0;
    var node := root;
    ghost var answer := LongestWalk(root, w, 0, 0, 0);
    for i := 0 to |w|
      invariant node != Nil ==> len == i && len + Height(node) <= Height(root)
      invariant last <= len <= i && len <= Height(root)
      invariant forall k | 0 <= k < len :: buf[k] == w[k]
      invariant LongestWalk(node, w, i, len, last) == answer
    {
      var found := SearchLevel(node, w[i]);
      if found != Nil {
        buf[len] := found.c;
        len := len + 1;
        if found.end {
          last := len;
        }
      }
      node := if found != Nil then found.eq else Nil;
    }
    assert w[..0] == [];
    LongestWalkFound(root, w, 0, root, 0, 0);
    r := Some(buf[..last]);
  }

  // ------------------------------------------------------------------
  // The prefix walks as the C code writes them
  // ------------------------------------------------------------------

  /**
   * palavrasComPrefixoAuxiliar as written: the node is reported before its
   * lower subtree, and all three children are walked at depth + 1.  Each
   * call writes its own position before reading the buffer, and depth grows
   * by one on every call, so the buffer read at depth d holds exactly the
   * characters of the d calls above: `path` passed by value.  It reports one
   * string per stored word, but not the word.
   */
  function PrefixAuxAsWritten(t: Tst, path: string): (out: seq<string>)
    ensures |out| == EndCount(t)
  {
    match t
    case Nil => []
    case Node(c, e, lo, eq, hi) =>
      (if e then [path + [c]] else [])
        + PrefixAuxAsWritten(lo, path + [c]) + PrefixAuxAsWritten(eq, path + [c]) + PrefixAuxAsWritten(hi, path + [c])
  }

  /** palavrasComPrefixo as written: the helper starts on the centre child with the buffer at depth 0. */
  function WordsWithPrefixAsWritten(t: Tst, p: string): (r: Option<seq<string>>)
    ensures r == None <==> |p| == 0
  {
    if |p| == 0 then None
    else
      var n := Descend(t, p);
      if n.Nil? then Some([]) else Some(PrefixAuxAsWritten(n.eq, []))
  }

  /**
   * strlen on the buffer from position k: the text up to the first '\0';
   * None when the buffer holds no '\0', where strlen reads past its end.
   */
  function CString(buf: seq<char>, k: nat): (r: Option<string>)
    requires k <= |buf|
    ensures r.Some? ==> k + |r.value| < |buf| && r.value == buf[k..k + |r.value|]
    ensures r.Some? ==> buf[k + |r.value|] == '\0' && '\0' !in r.value
    ensures r.None? <==> forall j | k <= j < |buf| :: buf[j] != '\0'
    decreases |buf| - k
  {
    if k == |buf| then None
    else if buf[k] == '\0' then Some([])
    else match CString(buf, k + 1)
      case None => None
      case Some(s) => Some([buf[k]] + s)
  }

  /**
   * The loop of prefixoMaisLongo as written, from character i on, with
   * `len` characters matched and the buffer as it stands: each matched
   * character goes to buf[len], and a terminating node writes '\0' at
   * buf[len + 1], which the next matched character overwrites.
   */
  function LongestPrefixLoopAsWritten(node: Tst, w: string, i: nat, len: nat, buf: seq<char>): (b: seq<char>)
    requires i <= |w| && |buf| == MAX_WORD_LEN && len + Height(node) < MAX_WORD_LEN
    ensures |b| == MAX_WORD_LEN
    ensures b[..len] == buf[..len]
    decreases |w| - i
  {
    if i == |w| then buf
    else
      var n := Find(node, w[i]);
      if n.Nil? then LongestPrefixLoopAsWritten(Nil, w, i + 1, len, buf)
      else
        var written := buf[len := n.c];
        var marked := if n.end then written[len + 1 := '\0'] else written;
        LongestPrefixLoopAsWritten(n.eq, w, i + 1, len + 1, marked)
  }

  /**
   * prefixoMaisLongo as written, on a buffer whose initial (uninitialised)
   * contents are `junk`: strlen of the buffer after the loop.
   */
  function LongestPrefixAsWritten(t: Tst, w: string, junk: seq<char>): (r: Option<string>)
    requires |junk| == MAX_WORD_LEN && Height(t) < MAX_WORD_LEN
    ensures |w| == 0 ==> r == None
  {
    if |w| == 0 then None else CString(LongestPrefixLoopAsWritten(t, w, 0, 0, junk), 0)
  }

  /** The trie that inserting "cat", "car" and "cart" builds. */
  function CatCarCart(): Tst
  {
    Node('c', false, Nil,
      Node('a', false, Nil,
        Node('t', true,
          Node('r', true, Nil, Node('t', true, Nil, Nil, Nil), Nil),
          Nil, Nil),
        Nil),
      Nil)
  }

  /** The trie that inserting "car" and "carpet" builds. */
  function CarCarpet(): Tst
  {
    Node('c', false, Nil,
      Node('a', false, Nil,
        Node('r', true, Nil,
          Node('p', false, Nil,
            Node('e', false, Nil, Node('t', true, Nil, Nil, Nil), Nil),
            Nil),
          Nil),
        Nil),
      Nil)
  }

  lemma CatCarCartBuilt()
    ensures CatCarCart() == Insert(Insert(Insert(Nil, "cat"), "car"), "cart")
  {
    var t1 := Node('c', false, Nil, Node('a', false, Nil, Node('t', true, Nil, Nil, Nil), Nil), Nil);
    assert "cat"[1..] == "at" && "at"[1..] == "t";
    assert Insert(Nil, "cat") == t1;
    var t2 := Node('c', false, Nil, Node('a', false, Nil,
      Node('t', true, Node('r', true, Nil, Nil, Nil), Nil, Nil), Nil), Nil);
    assert "car"[1..] == "ar" && "ar"[1..] == "r";
    assert Insert(t1, "car") == t2;
    assert "cart"[1..] == "art" && "art"[1..] == "rt" && "rt"[1..] == "t";
    assert Insert(t2, "cart") == CatCarCart();
  }

  /** The node of "ca" in CatCarCart: the 'a' node whose centre child is the 't' node. */
  lemma CatCarCartDescend()
    ensures Descend(CatCarCart(), "ca") == CatCarCart().eq
  {
    assert "ca"[..1] == "c" && "c"[1..] == [];
  }

  /**
   * With "cat", "car" and "cart" stored, the prefix walk as written reports
   * "t", "tr" and "trt" for the prefix "ca"; none of them starts with "ca".
   */
  lemma PrefixAsWrittenCounterexample()
    ensures CatCarCart() == Insert(Insert(Insert(Nil, "cat"), "car"), "cart")
    ensures WordsWithPrefixAsWritten(CatCarCart(), "ca") == Some(["t", "tr", "trt"])
    ensures forall x | x in ["t", "tr", "trt"] :: !("ca" <= x)
  {
    CatCarCartBuilt();
    CatCarCartDescend();
    var t := CatCarCart().eq.eq;
    assert [] + ['t'] == "t" && "t" + ['r'] == "tr" && "tr" + ['t'] == "trt";
    assert PrefixAuxAsWritten(t.lo.eq, "tr") == ["trt"];
    assert PrefixAuxAsWritten(t.lo, "t") == ["tr", "trt"];
    assert PrefixAuxAsWritten(t, []) == ["t"] + ["tr", "trt"] == ["t", "tr", "trt"];
    assert CatCarCart().eq.eq == t && Descend(CatCarCart(), "ca").Node?;
    assert WordsWithPrefixAsWritten(CatCarCart(), "ca") == Some(PrefixAuxAsWritten(t, []));
  }

  /** The node of "car" in CatCarCart: the terminating 'r' node. */
  lemma CatCarCartDescendCar()
    ensures Descend(CatCarCart(), "car") == CatCarCart().eq.eq.lo
  {
    assert "car"[..2] == "ca" && "ca"[1..] == "a" && "a"[1..] == [];
  }

  /**
   * With "cat", "car" and "cart" stored, the prefix walk as written never
   * reports the stored prefix "car" itself: it starts below the prefix's last
   * node and reports only "t", where the intended listing is "car", "cart".
   */
  lemma PrefixItselfAsWrittenCounterexample()
    ensures "car" in Words(CatCarCart())
    ensures WordsWithPrefixAsWritten(CatCarCart(), "car") == Some(["t"])
    ensures PrefixListing(CatCarCart(), "car") == ["car", "cart"]
  {
    CatCarCartWords();
    CatCarCartDescendCar();
    var r := CatCarCart().eq.eq.lo;
    assert [] + ['t'] == "t" && "car" + ['t'] == "cart";
    assert PrefixAuxAsWritten(r.eq, []) == ["t"];
    assert InOrderWords(r.eq, "car") == ["cart"];
  }

  /** For the same trie and prefix, the intended listing is "car", "cart", "cat". */
  lemma PrefixListingExample()
    ensures PrefixListing(CatCarCart(), "ca") == ["car", "cart", "cat"]
  {
    CatCarCartDescend();
    var t := CatCarCart().eq.eq;
    assert "ca" + ['r'] == "car" && "car" + ['t'] == "cart" && "ca" + ['t'] == "cat";
    assert InOrderWords(t.lo.eq, "car") == ["cart"];
    assert InOrderWords(t.lo, "ca") == ["car", "cart"];
  }

  lemma CarCarpetBuilt()
    ensures CarCarpet() == Insert(Insert(Nil, "car"), "carpet")
  {
    var t1 := Node('c', false, Nil, Node('a', false, Nil, Node('r', true, Nil, Nil, Nil), Nil), Nil);
    assert "car"[1..] == "ar" && "ar"[1..] == "r";
    assert Insert(Nil, "car") == t1;
    assert "carpet"[1..] == "arpet" && "arpet"[1..] == "rpet" && "rpet"[1..] == "pet";
    assert "pet"[1..] == "et" && "et"[1..] == "t";
    var pet := Node('p', false, Nil, Node('e', false, Nil, Node('t', true, Nil, Nil, Nil), Nil), Nil);
    assert Insert(Nil, "et") == pet.eq;
    assert Insert(Nil, "pet") == pet;
    assert Insert(t1.eq.eq, "rpet") == CarCarpet().eq.eq;
    assert Insert(t1, "carpet") == CarCarpet();
  }

  /**
   * With "car" and "carpet" stored and a zeroed buffer, prefixoMaisLongo as
   * written answers "carp" for "carp": the '\0' written after "car" is
   * overwritten by 'p'.  "carp" is not stored; the longest stored prefix is "car".
   */
  lemma LongestPrefixAsWrittenCounterexample()
    ensures CarCarpet() == Insert(Insert(Nil, "car"), "carpet")
    ensures LongestPrefixAsWritten(CarCarpet(), "carp", seq(MAX_WORD_LEN, _ => '\0')) == Some("carp")
    ensures Words(CarCarpet()) == {"car", "carpet"}
    ensures LongestStored(Words(CarCarpet()), "carp", 4) == 3
  {
    CarCarpetBuilt();
    CarpAsWritten();
    CarCarpetWords();
    LongestStoredCarp({"car", "carpet"});
  }

  lemma CarCarpetWords()
    ensures Words(CarCarpet()) == {"car", "carpet"}
  {
    CarCarpetBuilt();
    InsertWords(Nil, "car");
    InsertWords(Insert(Nil, "car"), "carpet");
  }

  lemma LongestStoredCarp(s: set<string>)
    requires s == {"car", "carpet"}
    ensures LongestStored(s, "carp", 4) == 3
  {
    assert "carp"[..4] == "carp" && "carp"[..3] == "car";
  }

  /** The buffer prefixoMaisLongo leaves for "carp" on CarCarpet, character by character. */
  lemma CarpAsWritten()
    ensures LongestPrefixAsWritten(CarCarpet(), "carp", seq(MAX_WORD_LEN, _ => '\0')) == Some("carp")
  {
    var w := "carp";
    var t := CarCarpet();
    var b0 := seq(MAX_WORD_LEN, _ => '\0');
    var b1 := b0[0 := 'c'];
    var b2 := b1[1 := 'a'];
    var b3 := b2[2 := 'r'][3 := '\0'];
    var b4 := b3[3 := 'p'];
    assert LongestPrefixLoopAsWritten(t, w, 0, 0, b0) == LongestPrefixLoopAsWritten(t.eq, w, 1, 1, b1);
    assert LongestPrefixLoopAsWritten(t.eq, w, 1, 1, b1) == LongestPrefixLoopAsWritten(t.eq.eq, w, 2, 2, b2);
    assert LongestPrefixLoopAsWritten(t.eq.eq, w, 2, 2, b2) == LongestPrefixLoopAsWritten(t.eq.eq.eq, w, 3, 3, b3);
    assert LongestPrefixLoopAsWritten(t.eq.eq.eq, w, 3, 3, b3) == LongestPrefixLoopAsWritten(t.eq.eq.eq.eq, w, 4, 4, b4);
    assert b4[0] == 'c' && b4[1] == 'a' && b4[2] == 'r' && b4[3] == 'p' && b4[4] == '\0';
    CarpBuffer(b4);
  }

  /** strlen of a buffer that starts with 'c', 'a', 'r', 'p', '\0' reads "carp". */
  lemma CarpBuffer(b: seq<char>)
    requires |b| == MAX_WORD_LEN
    requires b[0] == 'c' && b[1] == 'a' && b[2] == 'r' && b[3] == 'p' && b[4] == '\0'
    ensures CString(b, 0) == Some("carp")
  {
    assert CString(b, 4) == Some([]);
    assert ['p'] + [] == "p" && ['r'] + "p" == "rp" && ['a'] + "rp" == "arp" && ['c'] + "arp" == "carp";
    assert CString(b, 3) == Some("p");
    assert CString(b, 2) == Some("rp");
    assert CString(b, 1) == Some("arp");
  }

  /** The words CatCarCart stores, and its levels are ordered. */
  lemma CatCarCartWords()
    ensures Words(CatCarCart()) == {"cat", "car", "cart"}
    ensures Ordered(CatCarCart())
  {
    CatCarCartBuilt();
    var t1 := Insert(Nil, "cat");
    var t2 := Insert(t1, "car");
    InsertWords(Nil, "cat");
    InsertWords(t1, "car");
    InsertWords(t2, "cart");
    InsertValid(Nil, "cat");
    InsertValid(t1, "car");
    InsertValid(t2, "cart");
  }

  lemma LongestStoredCarton(s: set<string>)
    requires s == {"cat", "car", "cart"}
    ensures LongestStored(s, "carton", 6) == 4
  {
    assert "carton"[..6] == "carton" && "carton"[..5] == "carto" && "carton"[..4] == "cart";
  }

  /**
   * With "cat", "car" and "cart" stored, the longest stored prefix of
   * "carton" is "cart": both the stored word "car" and the longer "cart" are
   * prefixes of it.
   */
  lemma CartonExample()
    ensures "carton"[..LongestFound(CatCarCart(), "carton", 6)] == "cart"
  {
    var t := CatCarCart();
    CatCarCartWords();
    LongestFoundStored(t, "carton", 6);
    LongestStoredCarton(Words(t));
    assert "carton"[..4] == "cart";
  }
}
