/**
 * The dictionary object (Dicionario): the root of the ternary search trie
 * and the hash of the file the words were loaded from, with the operations
 * the menu calls on it.  Each operation replaces `root` with the subtree the
 * trie functions return, as the C code assigns `dicionario->raiz`.
 */
module DictionaryEngine {
  import opened Wrappers
  import opened TernaryTrie
  import opened WordOrder
  import opened Traversal
  import opened EditDistance
  import opened FuzzyMatch
  import opened Integrity
  import opened CStrings

  // ------------------------------------------------------------------
  // Reading words from the file
  // ------------------------------------------------------------------

  /** The white-space characters at which a "%s" conversion stops. */
  predicate IsSpaceChar(ch: char)
  {
    ch == ' ' || '\t' <= ch <= '\r'
  }

  /** A byte read as a character of the word buffer. */
  function ByteChar(b: Byte): char
  {
    b as char
  }

  /** A byte that reads as white space. */
  predicate IsSpace(b: Byte)
  {
    IsSpaceChar(ByteChar(b))
  }

  /** The characters of the non-white-space bytes of `s`, in order. */
  function NonSpace(s: seq<Byte>): string
  {
    if s == [] then []
    else (if IsSpace(s[0]) then [] else [ByteChar(s[0])]) + NonSpace(s[1..])
  }

  /** All tokens laid end to end. */
  function Concat(ts: seq<string>): string
  {
    if ts == [] then [] else ts[0] + Concat(ts[1..])
  }

  /**
   * The words successive fscanf "%s" calls read from the bytes `s`, when the
   * characters `cur` of a word have already been read: runs of
   * white space separate words, and a word ends at white space or at the end
   * of the file.
   */
  function Scan(s: seq<Byte>, cur: string): (ts: seq<string>)
    requires forall ch | ch in cur :: !IsSpaceChar(ch)
    ensures forall t | t in ts :: |t| > 0 && forall ch | ch in t :: !IsSpaceChar(ch)
    decreases |s|
  {
    if s == [] then (if cur == [] then [] else [cur])
    else if IsSpace(s[0]) then (if cur == [] then [] else [cur]) + Scan(s[1..], [])
    else Scan(s[1..], cur + [ByteChar(s[0])])
  }

  /** The words of a file, in the order fscanf reads them. */
  function Tokens(s: seq<Byte>): (ts: seq<string>)
  {
    Scan(s, [])
  }

  /** Splitting loses no character but white space: the tokens together spell `cur` and then the non-blank bytes. */
  lemma {:induction false} ScanKeepsCharacters(s: seq<Byte>, cur: string)
    requires forall ch | ch in cur :: !IsSpaceChar(ch)
    ensures Concat(Scan(s, cur)) == cur + NonSpace(s)
    decreases |s|
  {
    if s == [] {
      ConcatSingle(cur);
    } else if IsSpace(s[0]) {
      var head := if cur == [] then [] else [cur];
      var rest := Scan(s[1..], []);
      assert Scan(s, cur) == head + rest;
      ScanKeepsCharacters(s[1..], []);
      ConcatAppend(head, rest);
      ConcatSingle(cur);
      assert NonSpace(s) == NonSpace(s[1..]);
    } else {
      var ch := ByteChar(s[0]);
      assert Scan(s, cur) == Scan(s[1..], cur + [ch]);
      ScanKeepsCharacters(s[1..], cur + [ch]);
      assert NonSpace(s) == [ch] + NonSpace(s[1..]);
    }
  }

  /** A single token, or none when it is empty, spells itself. */
  lemma ConcatSingle(w: string)
    ensures Concat(if w == [] then [] else [w]) == w
  {
    if w != [] {
      assert [w][1..] == [];
    }
  }

  lemma {:induction false} ConcatAppend(a: seq<string>, b: seq<string>)
    ensures Concat(a + b) == Concat(a) + Concat(b)
    decreases |a|
  {
    if a == [] {
      assert a + b == b;
    } else {
      assert (a + b)[0] == a[0];
      assert (a + b)[1..] == a[1..] + b;
      ConcatAppend(a[1..], b);
    }
  }

  /** The words of a file are exactly its non-blank characters, cut at white space. */
  lemma TokensKeepCharacters(s: seq<Byte>)
    ensures Concat(Tokens(s)) == NonSpace(s)
  {
    ScanKeepsCharacters(s, []);
  }

  // ------------------------------------------------------------------
  // The dictionary
  // ------------------------------------------------------------------

  /**
   * The word inserirNo stores for the character array `w`: the C string the
   * array holds, except that for the empty C string its terminating NUL is
   * the one character compared, and the one-character word "\0" is stored.
   */
  function StoredWord(w: string): (r: string)
    ensures |r| > 0
    ensures |CWord(w)| > 0 ==> r == CWord(w)
    ensures |CWord(w)| == 0 ==> r == ['\0']
    ensures |r| <= |w| || |w| == 0
  {
    var c := CWord(w);
    if |c| == 0 then ['\0'] else c
  }

  /** A word read with a NUL byte inside it is stored only up to that byte. */
  lemma StoredWordAfterNul(w: string, tail: string)
    requires |w| > 0 && '\0' !in w
    ensures StoredWord(w + ['\0'] + tail) == w
  {
    CWordAfterNul(w, tail);
  }

  /** The bytes "a", NUL, "b" are one word for fscanf, and "a" is what is stored. */
  lemma NulInsideToken()
    ensures Tokens([97, 0, 98]) == [['a', '\0', 'b']]
    ensures StoredWord(['a', '\0', 'b']) == "a"
  {
    var s: seq<Byte> := [97, 0, 98];
    assert ByteChar(s[0]) == 'a' && ByteChar(s[1]) == '\0' && ByteChar(s[2]) == 'b';
    assert !IsSpace(s[0]) && !IsSpace(s[1]) && !IsSpace(s[2]);
    assert [] + [ByteChar(s[0])] == ['a'];
    assert ['a'] + [ByteChar(s[1])] == ['a', '\0'];
    assert ['a', '\0'] + [ByteChar(s[2])] == ['a', '\0', 'b'];
    assert s[1..][1..][1..] == [];
    assert Scan(s[1..][1..], ['a', '\0']) == Scan([], ['a', '\0', 'b']);
    assert Scan(s[1..], ['a']) == Scan(s[1..][1..], ['a', '\0']);
    assert Scan(s, []) == Scan(s[1..], ['a']);
    StoredWordAfterNul("a", "b");
  }

  class Dictionary {
    /** raiz */
    var root: Tst
    /** hash_ficheiro: NULL until a file is loaded, or when hashing it failed. */
    var hash: Option<string>

    /** The trie is well formed and every word fits the word buffers. */
    ghost predicate Valid()
      reads this
    {
      TernaryTrie.Valid(root) && Height(root) < MAX_WORD_LEN
    }

    /** The words stored. */
    ghost function Contents(): set<string>
      reads this
    {
      Words(root)
    }

    /** inicializarDicionario: an empty trie and no file hash. */
    constructor ()
      ensures Valid()
      ensures root == Nil && hash == None
      ensures Contents() == {}
    {
      root := Nil;
      hash := None;
    }

    /**
     * inserirPalavra: the word the array holds is added and nothing else
     * changes.  Every string argument below is a C character array: the word
     * it holds ends at its first NUL.
     */
    method Insert(w: string)
      requires Valid() && |w| < MAX_WORD_LEN
      modifies this
      ensures Valid()
      ensures root == TernaryTrie.Insert(old(root), StoredWord(w))
      ensures hash == old(hash)
      ensures Contents() == old(Contents()) + {StoredWord(w)}
    {
      var word := StoredWord(w);
      InsertValid(root, word);
      InsertWords(root, word);
      InsertHeight(root, word);
      root := TernaryTrie.Insert(root, word);
    }

    /** consultarPalavra: an empty word is rejected; otherwise membership in the dictionary. */
    method Lookup(w: string) returns (found: bool)
      requires Valid()
      ensures found <==> |CWord(w)| > 0 && CWord(w) in Contents()
    {
      var word := CWord(w);
      if |word| == 0 {
        return false;
      }
      LookupCorrect(root, word);
      found := TernaryTrie.Lookup(root, word);
    }

    /** removerPalavra: an empty word is rejected; otherwise the word leaves the dictionary. */
    method Remove(w: string)
      requires Valid()
      modifies this
      ensures Valid()
      ensures |CWord(w)| == 0 ==> root == old(root)
      ensures |CWord(w)| > 0 ==> root == TernaryTrie.Remove(old(root), CWord(w))
      ensures hash == old(hash)
      ensures Contents() == old(Contents()) - {CWord(w)}
    {
      var word := CWord(w);
      if |word| == 0 {
        WordsNonEmpty(root);
        return;
      }
      RemoveValid(root, word);
      RemoveWords(root, word);
      root := TernaryTrie.Remove(root, word);
    }

    /**
     * atualizarPalavra: when both words are non-empty, remove the old word
     * (whether or not it is stored) and insert the new one; otherwise
     * nothing changes.
     */
    method Update(oldWord: string, newWord: string)
      requires Valid() && |newWord| < MAX_WORD_LEN
      modifies this
      ensures Valid()
      ensures hash == old(hash)
      ensures |CWord(oldWord)| == 0 || |CWord(newWord)| == 0 ==> root == old(root)
      ensures |CWord(oldWord)| > 0 && |CWord(newWord)| > 0 ==>
        Contents() == old(Contents()) - {CWord(oldWord)} + {CWord(newWord)}
    {
      if |CWord(oldWord)| == 0 || |CWord(newWord)| == 0 {
        return;
      }
      Remove(oldWord);
      Insert(newWord);
    }

    /** imprimirIndice: every word once, in ascending order. */
    method Index() returns (words: seq<string>)
      requires Valid()
      ensures forall w :: w in words <==> w in Contents()
      ensures StrictlySorted(words)
    {
      words := ListAll(root);
    }

    /**
     * palavrasComPrefixo (as intended): an empty prefix is rejected;
     * otherwise every stored word that starts with the prefix, the prefix
     * itself included, once each and in ascending order.
     */
    method WordsWithPrefix(p: string) returns (r: Option<seq<string>>)
      requires Valid() && |p| < MAX_WORD_LEN
      ensures r == None <==> |CWord(p)| == 0
      ensures r.Some? ==> forall x :: x in r.value <==> x in Contents() && CWord(p) <= x
      ensures r.Some? ==> StrictlySorted(r.value)
    {
      var prefix := CWord(p);
      r := Traversal.WordsWithPrefix(root, prefix);
      if r.Some? {
        PrefixListingCorrect(root, prefix);
      }
    }

    /**
     * prefixoMaisLongo (as intended): an empty word is rejected; otherwise
     * the longest prefix of the word that is stored, empty when none is.
     */
    method LongestPrefix(w: string) returns (r: Option<string>)
      requires Valid()
      ensures r == None <==> |CWord(w)| == 0
      ensures r.Some? ==> r.value <= CWord(w)
      ensures r.Some? ==> r.value == [] || r.value in Contents()
      ensures r.Some? ==> forall k | |r.value| < k <= |CWord(w)| :: CWord(w)[..k] !in Contents()
    {
      var word := CWord(w);
      r := Traversal.LongestPrefix(root, word);
      if r.Some? {
        LongestPrefixCorrect(root, word);
      }
    }

    /**
     * palavrasPorDistanciaMinima: an empty dictionary is rejected; otherwise
     * every stored word whose edit distance to `base` is `d`, in ascending
     * order.  Both sides of the distance are C strings: a stored word is
     * measured up to its first NUL, as strlen of the buffer reads it.
     */
    method WordsAtDistance(base: string, d: int) returns (r: Option<seq<string>>)
      requires Valid()
      ensures r == None <==> Contents() == {}
      ensures r.Some? ==> forall x :: x in r.value <==> x in Contents() && Distance(CWord(x), CWord(base)) == d
      ensures r.Some? ==> StrictlySorted(r.value)
    {
      if root.Node? {
        LiveNodeHasWord(root);
      }
      r := FuzzyMatch.WordsAtDistance(root, CWord(base), d);
      if r.Some? {
        AtDistanceCorrect(root, CWord(base), d);
      }
    }

    /**
     * carregarPalavrasDoFicheiro: when the file opens, every word read from
     * it is inserted and the hash of the file is stored; when it does not,
     * nothing changes.  A word read by fscanf keeps any NUL byte of the file,
     * and inserirNo then stores only what comes before it.
     */
    method Load(file: Option<seq<Byte>>)
      requires Valid()
      requires file.Some? ==> forall t | t in Tokens(file.value) :: |t| < MAX_WORD_LEN
      modifies this
      ensures Valid()
      ensures file.None? ==> root == old(root) && hash == old(hash)
      ensures file.Some? ==> Contents() == old(Contents()) + (set t | t in Tokens(file.value) :: StoredWord(t))
      ensures file.Some? ==> hash == FileHash(file)
    {
      if file.None? {
        return;
      }
      var words := Tokens(file.value);
      for i := 0 to |words|
        invariant Valid()
        invariant Contents() == old(Contents()) + (set t | t in words[..i] :: StoredWord(t))
      {
        assert words[..i + 1] == words[..i] + [words[i]];
        Insert(words[i]);
      }
      assert words[..|words|] == words;
      hash := GenerateHash(file);
    }

    /**
     * verificarIntegridadeFicheiro: the stored hash matches the hash of the
     * file as it is now, two missing hashes matching.
     */
    method CheckIntegrity(file: Option<seq<Byte>>) returns (preserved: bool)
      ensures preserved <==> hash == FileHash(file)
    {
      var current := GenerateHash(file);
      preserved := HashesMatch(hash, current);
    }
  }
}
