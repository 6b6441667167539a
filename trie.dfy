/**
 * The ternary search trie of the dictionary engine: node creation,
 * insertion, exact lookup and deletion with pruning of dead nodes.
 *
 * A subtree is a value; an operation that rewrites child pointers in the
 * C code returns the replacement subtree, exactly as `inserirNo` and
 * `removerPalavraRecursivo` return the new child pointer.  Every operation
 * is related to the abstract set of words the subtree spells, `Words`.
 */
module TernaryTrie {

  /** Size of every word buffer of the program (MAX_TAMANHO_PALAVRA). */
  const MAX_WORD_LEN: nat := 100

  /**
   * NoTST: a character, the end-of-word flag, and the three children
   * `lo` (esquerda), `eq` (centro) and `hi` (direito).  Nil is a NULL slot.
   */
  datatype Tst =
    | Nil
    | Node(c: char, end: bool, lo: Tst, eq: Tst, hi: Tst)

  function Max(a: nat, b: nat): nat { if a < b then b else a }

  // ------------------------------------------------------------------
  // Abstract view
  // ------------------------------------------------------------------

  /** Every word of `s`, each preceded by `p`. */
  ghost function Prefixed(p: string, s: set<string>): set<string>
  {
    set w | w in s :: p + w
  }

  /**
   * The words a subtree spells: those of the lower and upper subtrees at
   * the same position, the one-letter word `[c]` when the flag is set, and
   * `c` followed by every word of the centre subtree.
   */
  ghost function Words(t: Tst): set<string>
    decreases t
  {
    match t
    case Nil => {}
    case Node(c, e, lo, eq, hi) =>
      Words(lo) + (if e then {[c]} else {}) + Prefixed([c], Words(eq)) + Words(hi)
  }

  /** Longest chain of centre steps; it bounds the length of every stored word. */
  function Height(t: Tst): nat
  {
    match t
    case Nil => 0
    case Node(_, _, lo, eq, hi) => Max(Max(Height(lo), 1 + Height(eq)), Height(hi))
  }

  /**
   * Ordering of each level as a binary search tree: every word of the lower
   * subtree starts with a smaller character than the node's, every word of
   * the upper subtree with a greater one.
   */
  ghost predicate Ordered(t: Tst)
  {
    match t
    case Nil => true
    case Node(c, _, lo, eq, hi) =>
      && Ordered(lo) && Ordered(eq) && Ordered(hi)
      && (forall w | w in Words(lo) :: |w| > 0 && w[0] < c)
      && (forall w | w in Words(hi) :: |w| > 0 && w[0] > c)
  }

  /** No node is childless and non-terminating. */
  predicate NoDeadNode(t: Tst)
  {
    match t
    case Nil => true
    case Node(_, e, lo, eq, hi) =>
      NoDeadNode(lo) && NoDeadNode(eq) && NoDeadNode(hi) && !(IsEmpty(t) && !e)
  }

  /** The invariant every trie of the dictionary keeps. */
  ghost predicate Valid(t: Tst)
  {
    Ordered(t) && NoDeadNode(t)
  }

  // ------------------------------------------------------------------
  // Node store
  // ------------------------------------------------------------------

  /** inicializarNo: a node for `ch` that does not end a word and has no children. */
  function NewNode(ch: char): (n: Tst)
    ensures n.Node? && n.c == ch && IsEmpty(n)
    ensures Words(n) == {}
  {
    Node(ch, false, Nil, Nil, Nil)
  }

  /** noEstaVazio: the node has no child at all; such a node spells at most its own letter. */
  predicate IsEmpty(n: Tst)
    requires n.Node?
    ensures IsEmpty(n) ==> Words(n) == (if n.end then {[n.c]} else {})
  {
    n.lo.Nil? && n.eq.Nil? && n.hi.Nil?
  }

  // ------------------------------------------------------------------
  // Operations
  // ------------------------------------------------------------------

  /**
   * consultarPalavraRecursivo: go to the lower or upper child on a smaller
   * or greater character, to the centre child on a match while characters
   * remain, and answer the flag at the last character.  The index `indice`
   * of the C code is the suffix `w` still to be matched.
   */
  function Lookup(t: Tst, w: string): (found: bool)
    requires |w| > 0
    ensures found ==> w in Words(t)
    decreases t
  {
    match t
    case Nil => false
    case Node(c, e, lo, eq, hi) =>
      if w[0] < c then Lookup(lo, w)
      else if w[0] > c then Lookup(hi, w)
      else if |w| > 1 then (PrefixedMember([c], Words(eq), w); Lookup(eq, w[1..]))
      else (assert w == [c]; e)
  }

  /**
   * inserirNo: create the node in a NULL slot, descend as lookup does and
   * set the flag at the last character.  The result is never NULL.
   */
  function Insert(t: Tst, w: string): (r: Tst)
    requires |w| > 0
    ensures r.Node?
    decreases t, |w|
  {
    var n := if t.Nil? then NewNode(w[0]) else t;
    if w[0] < n.c then n.(lo := Insert(n.lo, w))
    else if w[0] > n.c then n.(hi := Insert(n.hi, w))
    else if |w| > 1 then n.(eq := Insert(n.eq, w[1..]))
    else n.(end := true)
  }

  /**
   * removerPalavraRecursivo: descend as lookup does, clear the flag at the
   * last character, and on the way back replace by NULL every node left
   * childless and non-terminating.  A NULL slot stays NULL.
   */
  function Remove(t: Tst, w: string): (r: Tst)
    requires |w| > 0
    ensures Words(r) <= Words(t)
    ensures NoDeadNode(t) ==> NoDeadNode(r)
    ensures Height(r) <= Height(t)
    decreases t
  {
    match t
    case Nil => Nil
    case Node(c, e, lo, eq, hi) =>
      var n :=
        if w[0] < c then t.(lo := Remove(lo, w))
        else if w[0] > c then t.(hi := Remove(hi, w))
        else if |w| > 1 then t.(eq := Remove(eq, w[1..]))
        else t.(end := false);
      PrefixedSubset([c], Words(n.eq), Words(eq));
      Prune(n)
  }

  /**
   * The pruning step of removerPalavraRecursivo: a node left childless and
   * non-terminating is freed and its slot becomes NULL.  Pruning loses no word.
   */
  function Prune(n: Tst): (r: Tst)
    requires n.Node?
    ensures Words(r) == Words(n)
    ensures r.Node? ==> !(IsEmpty(r) && !r.end)
    ensures r == Nil || r == n
    ensures r == Nil <==> IsEmpty(n) && !n.end
  {
    if IsEmpty(n) && !n.end then Nil else n
  }

  // ------------------------------------------------------------------
  // Facts about Prefixed
  // ------------------------------------------------------------------

  lemma PrefixedMember(p: string, s: set<string>, x: string)
    ensures x in Prefixed(p, s) <==> p <= x && x[|p|..] in s
  {
    if p <= x {
      assert p + x[|p|..] == x;
    }
    if x in Prefixed(p, s) {
      var w :| w in s && x == p + w;
      assert x[|p|..] == w;
    }
  }

  lemma PrefixedSubset(p: string, s: set<string>, u: set<string>)
    requires s <= u
    ensures Prefixed(p, s) <= Prefixed(p, u)
  {
  }

  lemma PrefixedAdd(p: string, s: set<string>, x: string)
    ensures Prefixed(p, s + {x}) == Prefixed(p, s) + {p + x}
  {
    forall y ensures y in Prefixed(p, s + {x}) <==> y in Prefixed(p, s) + {p + x} {
      PrefixedMember(p, s + {x}, y);
      PrefixedMember(p, s, y);
      if p <= y {
        assert y == p + y[|p|..];
      }
      if y == p + x {
        assert y[|p|..] == x;
      }
    }
  }

  lemma PrefixedRemove(p: string, s: set<string>, x: string)
    ensures Prefixed(p, s - {x}) == Prefixed(p, s) - {p + x}
  {
    forall y ensures y in Prefixed(p, s - {x}) <==> y in Prefixed(p, s) - {p + x} {
      PrefixedMember(p, s - {x}, y);
      PrefixedMember(p, s, y);
      if p <= y {
        assert y == p + y[|p|..];
      }
      if y == p + x {
        assert y[|p|..] == x;
      }
    }
  }

  // ------------------------------------------------------------------
  // Facts about the abstract view
  // ------------------------------------------------------------------

  /** The trie never stores the empty word. */
  lemma {:induction false} WordsNonEmpty(t: Tst)
    ensures forall w | w in Words(t) :: |w| > 0
  {
    match t
    case Nil =>
    case Node(c, e, lo, eq, hi) =>
      WordsNonEmpty(lo);
      WordsNonEmpty(hi);
      forall x | x in Prefixed([c], Words(eq)) ensures |x| > 0 {
        PrefixedMember([c], Words(eq), x);
      }
  }

  /** Because no node is dead, every non-NULL subtree stores a word. */
  lemma {:induction false} LiveNodeHasWord(t: Tst)
    requires NoDeadNode(t) && t.Node?
    ensures Words(t) != {}
  {
    if t.end {
      assert [t.c] in Words(t);
    } else if t.lo.Node? {
      LiveNodeHasWord(t.lo);
      var w :| w in Words(t.lo);
      assert w in Words(t);
    } else if t.hi.Node? {
      LiveNodeHasWord(t.hi);
      var w :| w in Words(t.hi);
      assert w in Words(t);
    } else {
      LiveNodeHasWord(t.eq);
      var w :| w in Words(t.eq);
      PrefixedMember([t.c], Words(t.eq), [t.c] + w);
      assert [t.c] + w in Words(t);
    }
  }

  // ------------------------------------------------------------------
  // Lookup
  // ------------------------------------------------------------------

  /** On a well-formed trie, lookup answers exactly membership in the word set. */
  lemma {:induction false} LookupCorrect(t: Tst, w: string)
    requires Ordered(t) && |w| > 0
    ensures Lookup(t, w) <==> w in Words(t)
    decreases t
  {
    match t
    case Nil =>
    case Node(c, e, lo, eq, hi) =>
      WordsNonEmpty(eq);
      PrefixedMember([c], Words(eq), w);
      if w[0] < c {
        LookupCorrect(lo, w);
      } else if w[0] > c {
        LookupCorrect(hi, w);
      } else if |w| > 1 {
        LookupCorrect(eq, w[1..]);
      } else {
        assert w == [c];
      }
  }

  // ------------------------------------------------------------------
  // Insertion
  // ------------------------------------------------------------------

  /** Insertion adds exactly the word; no word sharing a prefix is lost. */
  lemma {:induction false} InsertWords(t: Tst, w: string)
    requires |w| > 0
    ensures Words(Insert(t, w)) == Words(t) + {w}
    decreases t, |w|
  {
    var n := if t.Nil? then NewNode(w[0]) else t;
    assert Words(n) == Words(t);
    if w[0] < n.c {
      InsertWords(n.lo, w);
      ReplaceLower(n, Insert(n.lo, w), w);
    } else if w[0] > n.c {
      InsertWords(n.hi, w);
      ReplaceUpper(n, Insert(n.hi, w), w);
    } else if |w| > 1 {
      InsertWords(n.eq, w[1..]);
      ReplaceCentre(n, Insert(n.eq, w[1..]), w);
    } else {
      assert w == [n.c];
    }
  }

  lemma ReplaceLower(n: Tst, lo': Tst, w: string)
    requires n.Node? && Words(lo') == Words(n.lo) + {w}
    ensures Words(n.(lo := lo')) == Words(n) + {w}
  {
  }

  lemma ReplaceUpper(n: Tst, hi': Tst, w: string)
    requires n.Node? && Words(hi') == Words(n.hi) + {w}
    ensures Words(n.(hi := hi')) == Words(n) + {w}
  {
  }

  lemma ReplaceCentre(n: Tst, eq': Tst, w: string)
    requires n.Node? && |w| > 1 && w[0] == n.c && Words(eq') == Words(n.eq) + {w[1..]}
    ensures Words(n.(eq := eq')) == Words(n) + {w}
  {
    PrefixedAdd([n.c], Words(n.eq), w[1..]);
    assert [n.c] + w[1..] == w;
  }

  /** Insertion keeps each level ordered and creates no dead node. */
  lemma {:induction false} InsertValid(t: Tst, w: string)
    requires Valid(t) && |w| > 0
    ensures Valid(Insert(t, w))
    decreases t, |w|
  {
    var n := if t.Nil? then NewNode(w[0]) else t;
    if w[0] < n.c {
      InsertValid(n.lo, w);
      InsertWords(n.lo, w);
    } else if w[0] > n.c {
      InsertValid(n.hi, w);
      InsertWords(n.hi, w);
    } else if |w| > 1 {
      InsertValid(n.eq, w[1..]);
    }
  }

  /** Inserting a word already stored changes nothing. */
  lemma {:induction false} InsertPresent(t: Tst, w: string)
    requires |w| > 0 && Lookup(t, w)
    ensures Insert(t, w) == t
    decreases t
  {
    match t
    case Node(c, e, lo, eq, hi) =>
      if w[0] < c {
        InsertPresent(lo, w);
      } else if w[0] > c {
        InsertPresent(hi, w);
      } else if |w| > 1 {
        InsertPresent(eq, w[1..]);
      }
  }

  /** Lookup finds an inserted word, whatever the shape of the trie. */
  lemma {:induction false} LookupInserted(t: Tst, w: string)
    requires |w| > 0
    ensures Lookup(Insert(t, w), w)
    decreases t, |w|
  {
    var n := if t.Nil? then NewNode(w[0]) else t;
    if w[0] < n.c {
      LookupInserted(n.lo, w);
    } else if w[0] > n.c {
      LookupInserted(n.hi, w);
    } else if |w| > 1 {
      LookupInserted(n.eq, w[1..]);
    }
  }

  /** Re-inserting only re-sets the flag: insertion is idempotent. */
  lemma InsertIdempotent(t: Tst, w: string)
    requires |w| > 0
    ensures Insert(Insert(t, w), w) == Insert(t, w)
  {
    LookupInserted(t, w);
    InsertPresent(Insert(t, w), w);
  }

  /** After insertion, lookup is true for the word and unchanged for every other word. */
  lemma InsertThenLookup(t: Tst, w: string, v: string)
    requires Valid(t) && |w| > 0 && |v| > 0
    ensures Lookup(Insert(t, w), v) <==> v == w || Lookup(t, v)
  {
    InsertWords(t, w);
    InsertValid(t, w);
    LookupCorrect(t, v);
    LookupCorrect(Insert(t, w), v);
  }

  /** Insertion grows the height only to the length of the new word. */
  lemma {:induction false} InsertHeight(t: Tst, w: string)
    requires |w| > 0
    ensures Height(Insert(t, w)) <= Max(Height(t), |w|)
    decreases t, |w|
  {
    var n := if t.Nil? then NewNode(w[0]) else t;
    if w[0] < n.c {
      InsertHeight(n.lo, w);
    } else if w[0] > n.c {
      InsertHeight(n.hi, w);
    } else if |w| > 1 {
      InsertHeight(n.eq, w[1..]);
    }
  }

  // ------------------------------------------------------------------
  // Removal
  // ------------------------------------------------------------------

  /** Removal keeps each level ordered and, by pruning, leaves no dead node. */
  lemma {:induction false} RemoveValid(t: Tst, w: string)
    requires Valid(t) && |w| > 0
    ensures Valid(Remove(t, w))
    decreases t
  {
    match t
    case Nil =>
    case Node(c, e, lo, eq, hi) =>
      if w[0] < c {
        RemoveValid(lo, w);
      } else if w[0] > c {
        RemoveValid(hi, w);
      } else if |w| > 1 {
        RemoveValid(eq, w[1..]);
      }
  }

  /** Removal deletes exactly the word. */
  lemma {:induction false} RemoveWords(t: Tst, w: string)
    requires Ordered(t) && |w| > 0
    ensures Words(Remove(t, w)) == Words(t) - {w}
    decreases t
  {
    match t
    case Nil =>
    case Node(c, e, lo, eq, hi) =>
      if w[0] < c {
        RemoveWords(lo, w);
        RemoveWordsBelow(t, w, Remove(lo, w));
      } else if w[0] > c {
        RemoveWords(hi, w);
        RemoveWordsAbove(t, w, Remove(hi, w));
      } else if |w| > 1 {
        RemoveWords(eq, w[1..]);
        RemoveWordsCentre(t, w, Remove(eq, w[1..]));
      } else {
        RemoveWordsHere(t, w);
      }
  }

  lemma RemoveWordsBelow(t: Tst, w: string, lo': Tst)
    requires t.Node? && Ordered(t) && |w| > 0 && w[0] < t.c
    requires Words(lo') == Words(t.lo) - {w}
    ensures Words(t.(lo := lo')) == Words(t) - {w}
  {
    WordsNonEmpty(t.eq);
    PrefixedMember([t.c], Words(t.eq), w);
  }

  lemma RemoveWordsAbove(t: Tst, w: string, hi': Tst)
    requires t.Node? && Ordered(t) && |w| > 0 && w[0] > t.c
    requires Words(hi') == Words(t.hi) - {w}
    ensures Words(t.(hi := hi')) == Words(t) - {w}
  {
    WordsNonEmpty(t.eq);
    PrefixedMember([t.c], Words(t.eq), w);
  }

  lemma RemoveWordsCentre(t: Tst, w: string, eq': Tst)
    requires t.Node? && Ordered(t) && |w| > 1 && w[0] == t.c
    requires Words(eq') == Words(t.eq) - {w[1..]}
    ensures Words(t.(eq := eq')) == Words(t) - {w}
  {
    PrefixedRemove([t.c], Words(t.eq), w[1..]);
    assert [t.c] + w[1..] == w;
  }

  lemma RemoveWordsHere(t: Tst, w: string)
    requires t.Node? && Ordered(t) && |w| == 1 && w[0] == t.c
    ensures Words(t.(end := false)) == Words(t) - {w}
  {
    assert w == [t.c];
    WordsNonEmpty(t.eq);
    PrefixedMember([t.c], Words(t.eq), w);
  }

  /** Removing a word that lookup does not find leaves the trie as it was. */
  lemma {:induction false} RemoveAbsent(t: Tst, w: string)
    requires NoDeadNode(t) && |w| > 0 && !Lookup(t, w)
    ensures Remove(t, w) == t
    decreases t
  {
    match t
    case Nil =>
    case Node(c, e, lo, eq, hi) =>
      if w[0] < c {
        RemoveAbsent(lo, w);
      } else if w[0] > c {
        RemoveAbsent(hi, w);
      } else if |w| > 1 {
        RemoveAbsent(eq, w[1..]);
      }
  }

  /** After removal, lookup is false for the word and unchanged for every other word. */
  lemma RemoveThenLookup(t: Tst, w: string, v: string)
    requires Valid(t) && |w| > 0 && |v| > 0
    ensures Lookup(Remove(t, w), v) <==> v != w && Lookup(t, v)
  {
    RemoveWords(t, w);
    RemoveValid(t, w);
    LookupCorrect(t, v);
    LookupCorrect(Remove(t, w), v);
  }

  /** Insert then remove of a word that was absent restores the word set. */
  lemma InsertRemoveRoundTrip(t: Tst, w: string)
    requires Valid(t) && |w| > 0 && w !in Words(t)
    ensures Words(Remove(Insert(t, w), w)) == Words(t)
  {
    InsertWords(t, w);
    InsertValid(t, w);
    RemoveWords(Insert(t, w), w);
  }
}
