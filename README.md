# Dictionary engine: a verified model of a ternary search trie

This project models the dictionary engine of a spell-checking utility written
in C (`manipuladorDoDicionario.c`, types in `desafioaceite.h`). It also proves
properties of the model.

The engine keeps its words in a ternary search trie. Each node holds:

- a character;
- an end-of-word flag;
- a lower, a centre and an upper child.

The lower and upper children form a binary search tree over the characters at
one position. The centre child moves to the next position. On top of the trie
the engine offers:

- insertion and exact lookup;
- removal with pruning of dead nodes;
- update (remove one word, insert another);
- an in-order index of all words;
- the words starting with a prefix, and the longest stored prefix of a word;
- the words at a given Levenshtein distance from a base word;
- a djb2 hash of the word file, to check that the file has not changed since
  it was loaded.

## Files

- `trie.dfy` (module `TernaryTrie`) models the node (`Tst`), the abstract word
  set `Words`, and the well-formedness predicate `Valid`. `Valid` means every
  level is ordered and no node is childless and non-terminating. The module
  also holds insertion, lookup and removal with pruning. Each of these is a
  function that returns the replacement subtree, just as the C functions
  return the new child pointer.
- `order.dfy` (module `WordOrder`) defines the order in which the in-order walk
  lists words: character by character, with a proper prefix first.
- `traversal.dfy` (module `Traversal`) holds the walks:
  - the in-order walk `percursoEmOrdem`, as a recursive method over the shared
    character buffer (an `array<char>`);
  - the prefix walk and the longest-prefix walk, as methods with the C's nested
    `for`/`while` loops;
  - models of both walks as the C code writes them, with the counterexamples
    listed under Findings.
- `editdistance.dfy` (module `EditDistance`) holds `min` and the
  dynamic-programming matrix of `distanciaEdicao`, filled in nested loops. The
  method is proved equal to the Levenshtein recurrence `Cell`.
- `fuzzy.dfy` (module `FuzzyMatch`) holds the in-order walk that keeps the
  words at a given distance.
- `integrity.dfy` (module `Integrity`) holds:
  - the djb2 fold modulo 2^64;
  - its decimal rendering by `sprintf("%lu")`;
  - the three-way comparison of hashes;
  - the integrity check.
- `dictionary.dfy` (module `DictionaryEngine`) holds the `Dictionary` class.
  Its fields are `root` (raiz) and `hash` (hash_ficheiro), and its methods are
  the entry points the menu calls. It also models word splitting by
  `fscanf("%s")` when a file is loaded.
- `cstrings.dfy` (module `CStrings`) defines `CWord`, the word a character
  array holds: its characters before the first NUL, where `strlen` stops.
- `wrappers.dfy` holds `Option`. It models the NULL results and NULL hashes.

Words are `string` (`seq<char>`), and characters are compared with Dafny's
order on `char`. Every method is specified against a function that needs no
well-formedness. Separate lemmas then prove what that function means on a
well-formed trie: membership, order, or longest prefix. The `Dictionary`
methods combine the two.

## Model

| member | source | states |
|---|---|---|
| CStrings.CWord | manipuladorDoDicionario.c:127 | the C string of an array is a prefix of it without NUL, ended by the first NUL or by the end of the array |
| CStrings.CWordOfWord | manipuladorDoDicionario.c:127 | an array without NUL holds exactly its own characters |
| CStrings.CWordAfterNul | manipuladorDoDicionario.c:127 | whatever follows the first NUL does not change the C string |
| TernaryTrie.NewNode | manipuladorDoDicionario.c:79-102 | a new node carries the character, has no children and stores no word |
| TernaryTrie.IsEmpty | manipuladorDoDicionario.c:214-217 | a node without children spells at most its own one-letter word |
| TernaryTrie.Lookup | manipuladorDoDicionario.c:153-187 | a true answer only for a word the trie stores |
| TernaryTrie.LookupCorrect | manipuladorDoDicionario.c:153-187 | on an ordered trie, lookup is true exactly for the stored words. It is false at a NULL slot and false for a proper prefix whose flag is unset |
| TernaryTrie.Insert | manipuladorDoDicionario.c:107-136 | insertion always returns a node, never NULL |
| TernaryTrie.InsertWords | manipuladorDoDicionario.c:107-136 | the words after insertion are the words before plus the new word |
| TernaryTrie.InsertValid | manipuladorDoDicionario.c:107-136 | insertion keeps every level ordered and creates no dead node |
| TernaryTrie.InsertPresent | manipuladorDoDicionario.c:124-132 | inserting a stored word leaves the trie unchanged: only the flag is set again |
| TernaryTrie.InsertIdempotent | manipuladorDoDicionario.c:107-136 | inserting the same word twice gives the trie of inserting it once |
| TernaryTrie.LookupInserted | manipuladorDoDicionario.c:107-187 | lookup finds a word right after it is inserted, whatever the trie |
| TernaryTrie.InsertThenLookup | manipuladorDoDicionario.c:107-187 | after insertion, lookup is true for the new word and unchanged for every other word |
| TernaryTrie.InsertHeight | manipuladorDoDicionario.c:107-136 | insertion can only grow the trie's depth to the length of the inserted word |
| TernaryTrie.Remove | manipuladorDoDicionario.c:220-261 | removal only loses words, keeps the no-dead-node invariant and never grows the height |
| TernaryTrie.Prune | manipuladorDoDicionario.c:251-258 | the result is NULL exactly for a childless non-terminating node, and every other node is kept; the stored words are unchanged |
| TernaryTrie.RemoveValid | manipuladorDoDicionario.c:220-261 | removal keeps every level ordered and leaves no dead node |
| TernaryTrie.RemoveWords | manipuladorDoDicionario.c:220-261 | the words after removal are the words before minus the removed word |
| TernaryTrie.RemoveAbsent | manipuladorDoDicionario.c:222-225 | removing a word lookup does not find leaves the trie as it was |
| TernaryTrie.RemoveThenLookup | manipuladorDoDicionario.c:153-261 | after removal, lookup is false for the removed word and unchanged for every other word |
| TernaryTrie.InsertRemoveRoundTrip | manipuladorDoDicionario.c:107-261 | inserting then removing an absent word restores the word set |
| TernaryTrie.WordsNonEmpty | manipuladorDoDicionario.c:107-136 | the trie never stores the empty word |
| TernaryTrie.LiveNodeHasWord | manipuladorDoDicionario.c:251-258 | with no dead node, a non-NULL trie stores at least one word |
| Traversal.InOrderLength | manipuladorDoDicionario.c:561-586 | the in-order walk reports one word per terminating node |
| Traversal.InOrderElements | manipuladorDoDicionario.c:561-586 | the walk from a buffer holding `path` reports exactly `path` followed by each stored word |
| Traversal.InOrderSorted | manipuladorDoDicionario.c:561-586 | on an ordered trie, the reported words are strictly ascending |
| Traversal.IndexCorrect | manipuladorDoDicionario.c:561-594 | the index lists every stored word and no other, each once, in ascending order |
| Traversal.CollectInOrder | manipuladorDoDicionario.c:561-586 | the recursive walk over the shared buffer leaves the path characters below `depth` untouched. It reports the in-order listing of the subtree, prefixed by that path |
| Traversal.ListAll | manipuladorDoDicionario.c:589-594 | on a well-formed trie, the index from an empty buffer holds exactly the stored words, in ascending order |
| Traversal.Find | manipuladorDoDicionario.c:337-348 | the node the level search stops at carries the character searched for, or is NULL |
| Traversal.FindOrdered | manipuladorDoDicionario.c:337-348 | searching an ordered level reaches an ordered subtree |
| Traversal.SearchLevel | manipuladorDoDicionario.c:337-348 | the inner `while` loop through lower and upper children ends at the node `Find` gives |
| Traversal.LookupViaDescend | manipuladorDoDicionario.c:153-187 | lookup is true exactly when the node reached by the whole word ends a word |
| Traversal.LookupViaFollow | manipuladorDoDicionario.c:153-187 | looking up p + x is looking up x below the level reached by p |
| Traversal.ListingPrefixItself | manipuladorDoDicionario.c:320-358 | (as intended; see Findings) the prefix itself is listed exactly when it is stored |
| Traversal.ListingExtension | manipuladorDoDicionario.c:320-358 | a proper extension of the prefix is listed exactly when it is stored |
| Traversal.ListingHasPrefix | manipuladorDoDicionario.c:320-358 | every listed word starts with the prefix |
| Traversal.PrefixListingElements | manipuladorDoDicionario.c:320-358 | the listing holds exactly the stored words that start with the prefix |
| Traversal.PrefixListingSorted | manipuladorDoDicionario.c:320-358 | the listing is strictly ascending |
| Traversal.PrefixListingCorrect | manipuladorDoDicionario.c:298-358 | every stored word starting with the prefix, and no other, once each and in ascending order |
| Traversal.WordsWithPrefix | manipuladorDoDicionario.c:321-358 | an empty prefix is rejected. Otherwise the descent over the prefix characters, followed by the in-order walk of the centre child, yields the prefix listing |
| Traversal.LongestStored | manipuladorDoDicionario.c:362-407 | the length of a prefix that is stored, or 0, such that no longer prefix is stored |
| Traversal.LongestFound | manipuladorDoDicionario.c:381-399 | the length of the last terminating node crossed along the word is at most the word's length |
| Traversal.FoundIffStored | manipuladorDoDicionario.c:381-399 | on an ordered trie, the node reached by a prefix ends a word exactly when the prefix is stored |
| Traversal.LongestFoundStored | manipuladorDoDicionario.c:362-407 | on an ordered trie, the walk's answer is the longest stored prefix |
| Traversal.LongestPrefixCorrect | manipuladorDoDicionario.c:362-407 | the answer is empty or a stored word, and no longer prefix of the word is stored |
| Traversal.LongestWalk | manipuladorDoDicionario.c:381-399 | the walk's recorded length never decreases |
| Traversal.LongestWalkFound | manipuladorDoDicionario.c:381-399 | the loop started at any position completes the longest stored prefix |
| Traversal.LongestPrefix | manipuladorDoDicionario.c:363-407 | an empty word is rejected. Otherwise the loop copies the matched characters into the buffer and returns them up to the last terminating node |
| Traversal.CartonExample | manipuladorDoDicionario.c:362-407 | with "cat", "car" and "cart" stored, the longest stored prefix of "carton" is "cart" |
| Traversal.PrefixListingExample | manipuladorDoDicionario.c:298-358 | with "cat", "car" and "cart" stored, the prefix "ca" lists "car", "cart", "cat" |
| Traversal.PrefixAuxAsWritten | manipuladorDoDicionario.c:299-318 | the helper as written reports one string per terminating node |
| Traversal.WordsWithPrefixAsWritten | manipuladorDoDicionario.c:321-358 | as written, an empty prefix is rejected and any other prefix yields a listing |
| Traversal.PrefixAsWrittenCounterexample | manipuladorDoDicionario.c:299-318 | with "cat", "car" and "cart" inserted, the walk as written reports "t", "tr", "trt" for "ca", none of which starts with "ca" |
| Traversal.PrefixItselfAsWrittenCounterexample | manipuladorDoDicionario.c:348-352 | with "cat", "car" and "cart" stored, the walk as written lists only "t" for the stored prefix "car", where the intended listing is "car", "cart" |
| Traversal.CString | manipuladorDoDicionario.c:404 | strlen reads the characters before the first '\0'. It reads past the buffer (None) exactly when no '\0' follows the start |
| Traversal.LongestPrefixLoopAsWritten | manipuladorDoDicionario.c:381-399 | the loop as written never changes the buffer below the matched length |
| Traversal.LongestPrefixAsWritten | manipuladorDoDicionario.c:363-407 | as written, an empty word is rejected |
| Traversal.LongestPrefixAsWrittenCounterexample | manipuladorDoDicionario.c:390-404 | with "car" and "carpet" inserted and a zeroed buffer, the code as written answers "carp" for "carp". That word is not stored; the longest stored prefix has length 3 |
| EditDistance.Min3 | manipuladorDoDicionario.c:412-415 | the result is at most each argument and equal to one of them |
| EditDistance.ComputeDistance | manipuladorDoDicionario.c:418-441 | the nested loops leave the Levenshtein recurrence in every cell, and the result is the last cell |
| EditDistance.DistanceToEmpty | manipuladorDoDicionario.c:426-429 | a word's distance to or from the empty word is its length |
| EditDistance.CellBounds | manipuladorDoDicionario.c:424-438 | each cell lies between the difference of the prefix lengths and the longer length |
| EditDistance.DistanceBounds | manipuladorDoDicionario.c:418-441 | the distance lies between the difference of the lengths and the longer length |
| EditDistance.CellZero | manipuladorDoDicionario.c:424-438 | a cell is zero exactly when the two prefixes are equal |
| EditDistance.DistanceZero | manipuladorDoDicionario.c:418-441 | the distance is zero exactly between equal words |
| EditDistance.DistanceSymmetric | manipuladorDoDicionario.c:418-441 | swapping the words gives the same distance |
| FuzzyMatch.AtDistance | manipuladorDoDicionario.c:453-459 | the filter keeps no more words than it is given, and only words it is given |
| FuzzyMatch.AtDistanceElements | manipuladorDoDicionario.c:453-459 | the filter keeps exactly the words whose C string (as `strlen` of the buffer reads it) is at distance `d` from the base word |
| FuzzyMatch.AtDistanceSorted | manipuladorDoDicionario.c:445-466 | the filter keeps the ascending order of the walk |
| FuzzyMatch.CollectAtDistance | manipuladorDoDicionario.c:445-466 | the walk over the shared buffer keeps the path characters. It reports the in-order words of the subtree whose distance computed from the buffer is `d` |
| FuzzyMatch.WordsAtDistance | manipuladorDoDicionario.c:469-479 | an empty (NULL) dictionary is rejected. Otherwise the walk from an empty buffer gives the filtered in-order listing |
| FuzzyMatch.AtDistanceCorrect | manipuladorDoDicionario.c:445-479 | every stored word whose C string is at distance `d`, and no other, once each and in ascending order |
| Integrity.StepIsTimes33 | manipuladorDoDicionario.c:640 | `(hash << 5) + hash + c` modulo 2^64 is `hash * 33 + c` modulo 2^64 |
| Integrity.HashBytes | manipuladorDoDicionario.c:633-641 | the loop over the bytes computes the djb2 fold from seed 5381 |
| Integrity.HashConcat | manipuladorDoDicionario.c:633-641 | folding two byte runs one after the other is folding the second from the hash of the first |
| Integrity.StepInjective | manipuladorDoDicionario.c:640 | one step with the same byte maps different hashes to different hashes |
| Integrity.StepByteInjective | manipuladorDoDicionario.c:640 | one step from the same hash maps different bytes to different hashes |
| Integrity.HashFromInjective | manipuladorDoDicionario.c:633-641 | folding the same bytes from different hashes gives different hashes |
| Integrity.SingleByteChange | manipuladorDoDicionario.c:633-641 | changing any single byte of a file changes its hash |
| Integrity.DigitChar | manipuladorDoDicionario.c:658 | a digit value is rendered as one of the characters '0' to '9' |
| Integrity.DigitValue | manipuladorDoDicionario.c:658 | a digit character reads back as the digit value that renders to it |
| Integrity.Decimal | manipuladorDoDicionario.c:658 | `%lu` renders a number as a non-empty run of digits without a leading zero |
| Integrity.DecimalRoundTrip | manipuladorDoDicionario.c:658 | reading the decimal rendering back gives the number |
| Integrity.DecimalInjective | manipuladorDoDicionario.c:658 | different numbers have different renderings |
| Integrity.HashFitsBuffer | manipuladorDoDicionario.c:647-649 | every 64-bit hash renders in at most 20 digits, so it fits the 21-byte buffer with its '\0' |
| Integrity.FileHash | manipuladorDoDicionario.c:621-662 | no hash when the file cannot be opened. Otherwise 1 to 20 decimal digits |
| Integrity.GenerateHash | manipuladorDoDicionario.c:621-662 | hashing the bytes with the loop and rendering the result gives the file's hash |
| Integrity.HashesMatch | manipuladorDoDicionario.c:667-691 | two missing hashes match, exactly one missing does not, and present hashes match when the strings are equal |
| Integrity.IntegrityDetectsChange | manipuladorDoDicionario.c:599-613 | a file checks as unchanged against its own hash. It no longer checks once any single byte changes or once it cannot be opened |
| DictionaryEngine.Scan | manipuladorDoDicionario.c:717-721 | every word fscanf reads is non-empty and holds no white space |
| DictionaryEngine.ScanKeepsCharacters | manipuladorDoDicionario.c:717-721 | the words read, laid end to end, are the characters already read followed by the file's non-blank bytes |
| DictionaryEngine.TokensKeepCharacters | manipuladorDoDicionario.c:717-721 | the words of a file, laid end to end, are exactly its non-blank bytes |
| DictionaryEngine.StoredWord | manipuladorDoDicionario.c:107-136 | `inserirNo` stores the C string the array holds, and the one-character word "\0" for the empty C string; the stored word is never empty and fits the array |
| DictionaryEngine.StoredWordAfterNul | manipuladorDoDicionario.c:107-136 | a word with a NUL inside it is stored only up to that NUL |
| DictionaryEngine.NulInsideToken | manipuladorDoDicionario.c:717-721 | `fscanf` reads the bytes "a", NUL, "b" as one word, and "a" is what is stored |
| DictionaryEngine.Dictionary.constructor | manipuladorDoDicionario.c:59-76 | a new dictionary has a NULL root and no hash, and stores no word |
| DictionaryEngine.Dictionary.Insert | manipuladorDoDicionario.c:139-148 | the stored word of the array (its C string, or "\0" for an empty one) is added. Well-formedness is kept and the hash is unchanged |
| DictionaryEngine.Dictionary.Lookup | manipuladorDoDicionario.c:191-209 | true exactly when the array's C string is non-empty and stored; an empty C string is rejected with false |
| DictionaryEngine.Dictionary.Remove | manipuladorDoDicionario.c:264-275 | the array's C string leaves the dictionary and well-formedness is kept. An empty C string changes nothing |
| DictionaryEngine.Dictionary.Update | manipuladorDoDicionario.c:280-294 | with both C strings non-empty, the new contents are the old contents without the old word, plus the new word. Otherwise nothing changes |
| DictionaryEngine.Dictionary.Index | manipuladorDoDicionario.c:589-594 | every stored word exactly once, in ascending order |
| DictionaryEngine.Dictionary.WordsWithPrefix | manipuladorDoDicionario.c:321-358 | (as intended; see Findings) an empty prefix is rejected. Otherwise exactly the stored words starting with the prefix's C string, in ascending order |
| DictionaryEngine.Dictionary.LongestPrefix | manipuladorDoDicionario.c:363-407 | (as intended; see Findings) an empty word is rejected. Otherwise a prefix of the word's C string that is empty or stored, such that no longer prefix is stored |
| DictionaryEngine.Dictionary.WordsAtDistance | manipuladorDoDicionario.c:469-479 | an empty dictionary is rejected. Otherwise exactly the stored words whose C string is at distance `d` from the base's C string, in ascending order |
| DictionaryEngine.Dictionary.Load | manipuladorDoDicionario.c:699-733 | when the file opens, the stored word of every word read is added (what precedes a NUL byte inside it) and the file's hash is stored. When it does not open, nothing changes |
| DictionaryEngine.Dictionary.CheckIntegrity | manipuladorDoDicionario.c:599-613 | the file checks as unchanged exactly when its current hash equals the stored hash, two missing hashes being equal |

## Left out

- The menu and the interactive control flow (`menu`, `executarOpcao`, `iniciarPrograma`) are left out. So are the spell-check pipeline `verificarOrtografia` and `tratarPalavraNaoEncontrada`. They are terminal and file I/O around the modelled operations.
- File I/O is a parameter. A file is `Option<seq<Byte>>`, with None when `fopen` fails, and the model reads the same bytes for the words and for the hash. The C opens the file twice. Text-mode CRLF translation is not modelled.
- The `printf` traces, `system("pause")`, `printTST`, `destruirNo` and `destruirDicionario` are diagnostics or memory release, and are not modelled.
- Memory allocation is not modelled. Every `malloc` succeeds. The C ignores a failed node allocation in `inserirNo`; in `gerarHashFicheiro` a failed allocation would give a NULL hash, and that case is not modelled.
- Nodes are values, so the in-place rewriting of child pointers and flags is not modelled. Each operation returns the replacement subtree and the class assigns it to `root`, so aliasing between nodes and the freeing of pruned nodes are not captured.
- Characters use Dafny's order on `char`. The C compares `char`, which is signed on most platforms, so bytes above 127 order differently. The trie's algorithms need only some total order.
- The hash modulus is 2^64, the width of `unsigned long` on LP64 platforms. On 32-bit `unsigned long` platforms the fold is modulo 2^32, which is not modelled.
- Buffers hold `MAX_TAMANHO_PALAVRA` = 100 characters. The model requires words shorter than 100 characters and a trie whose height is below 100 (`Dictionary.Valid`). Longer words overflow the C buffers, and that behaviour is not modelled.
- DictionaryEngine.Dictionary.Insert: an array whose C string is empty is stored as the one-character word "\0" (`StoredWord`). That is what `inserirNo` does: it compares the terminating NUL and sets the flag on a NUL node. The model keeps this behaviour and does not require a non-empty word.
- Every string the `Dictionary` methods take is a character array, read up to its first NUL (`CWord`), as `strlen` and the C comparisons read it. The functions of `TernaryTrie`, `Traversal` and `FuzzyMatch` take the word they are given as it is.
- Listings report each stored word as the buffer holds it. `printf("%s")` prints a word only up to a NUL, so the stored word "\0" is printed as an empty line; the printed text is not modelled.
- EditDistance.ComputeDistance: the header declares a four-argument `distanciaEdicao`, and `palavrasPorDistanciaMinimaAux` calls it that way. The definition takes two strings, and the model follows the definition.
- Traversal.LongestPrefix and DictionaryEngine.Dictionary.LongestPrefix: the length at the last terminating node is recorded instead of writing a '\0' marker into the buffer, and the inner level search is the method `SearchLevel`. The marker version as written is `LongestPrefixAsWritten`; see Findings.
- Traversal.WordsWithPrefix and DictionaryEngine.Dictionary.WordsWithPrefix: the listing starts from a buffer that holds the prefix and walks the centre child in order. It also reports the prefix itself when the prefix is a stored word, which the C never does: line 351 starts the helper at the centre child, below the node that carries the prefix's flag. The helper as written is `PrefixAuxAsWritten`; see Findings.
- Words are reported as sequences, not printed. The order of the sequence is the order of the `printf` calls.
- EditDistance.Distance: the triangle inequality of the edit distance is not proved. Neither the code nor its comments rely on it.

## Findings

| source | as written | input that shows it | evidently intended | confidence | as-written member | corrected member |
|---|---|---|---|---|---|---|
| manipuladorDoDicionario.c:299-318, 351 | `palavrasComPrefixoAuxiliar` starts the buffer at depth 0, so the prefix is never in it. The node is reported before its lower subtree, and the lower and upper children are walked at depth + 1. The helper starts at the centre child of the prefix's last node, so a stored prefix is never reported itself: with the same words, the prefix "car" gives only "t" (`Traversal.PrefixItselfAsWrittenCounterexample`) | store "cat", "car", "cart" and list the prefix "ca": the output is "t", "tr", "trt" | the stored words that start with the prefix: "car", "cart", "cat" | not executed | Traversal.PrefixAsWrittenCounterexample | Traversal.PrefixListingCorrect |
| manipuladorDoDicionario.c:390-404 | `prefixoMaisLongo` marks a terminating node by writing '\0' at `buffer[comprimento]`. The next matched character overwrites that marker, and `strlen` then reads up to a later '\0' or past the buffer | store "car" and "carpet" and ask for "carp" with a zeroed buffer: the answer is "carp", which is not stored | the longest stored prefix, "car" | not executed | Traversal.LongestPrefixAsWrittenCounterexample | Traversal.LongestPrefixCorrect |
