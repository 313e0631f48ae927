# cryptid: a verified model of the cryptogram solver

cryptid solves substitution cryptograms. It indexes a dictionary in two ways. One index maps each word's *pattern* to the words with that pattern; "book" has pattern [0, 1, 1, 2], because each letter is numbered by the order in which it first appears. The other index maps each (position, byte) pair to the words that hold that byte at that position.

To solve a phrase, cryptid splits it at whitespace and drops repeated tokens. It then searches for substitution mappings (encrypted byte to plaintext byte) that decode every token into a dictionary word. The search always works on the token with the fewest candidate words next. For that token it tries each candidate, extending the mapping consistently and injectively, and recurses on the remaining tokens. Finally it renders the phrase through each complete mapping.

The model is split into modules:

- `Options` (options.dfy): `Option`.
- `Bytes` (bytes.dfy): bytes, ASCII, lowercasing and whitespace.
- `Mappings` (mappings.dfy): injectivity of a mapping and its image-size test, and map extension.
- `Patterns` (pattern.dfy): `Pattern::from_str` as a loop proved against the recursive `Canon` function, plus the properties of patterns.
- `Phrases` (phrase.dfy): `Phrase::from_str`, whitespace tokenising, removing duplicate tokens, and rendering.
- `Search` (search.dfy): ghost specifications, with the lemmas that relate them. They cover:
  - the index buckets;
  - the filter that `find_candidate_matches` applies;
  - what `try_extend_mapping` computes;
  - `Solves`, the definition of a solution.
- `Solving` (solver.dfy): the `Solver` class. Its constant fields `byPattern` and `byPosition` are the two index maps: they are built once by the constructor and only read afterwards. The constructor and the methods mirror the Rust methods loop for loop. Each method is proved against the `Search` specifications.

Bytes are integers 0..255. A word is a sequence of bytes. A mapping is a `map<Byte, Byte>`. The dictionary that the index was built from is a ghost constant field, `Dictionary`, of the solver.

The phrase's output is a string of characters: each rendered byte becomes the character with that code point, as Rust's `u8 as char` does.

The main result is `Solving.Solver.Guess`. It returns exactly the mappings that solve the tokens: it is sound and complete with respect to `Search.Solves`. A mapping solves a list of tokens from a start mapping when all of these hold:

- it extends the start mapping;
- its domain is the start's domain plus the bytes of the tokens;
- it decodes every token into a dictionary word;
- it is injective, whenever there is at least one token.

`Solving.Solver.Solve` then renders the phrase through exactly those mappings.

## Model

| member | source | states |
|---|---|---|
| Bytes.ToAsciiLower | src/main.rs:29 | the result is never an uppercase letter, stays ASCII for ASCII input, and leaves every byte that is not an uppercase letter unchanged |
| Phrases.FromStr | src/main.rs:26-33 | a phrase is produced exactly for ASCII input; it has the input's length and is ASCII |
| Phrases.FromStrSpec | src/main.rs:26-33 | the result is `None` exactly when some byte is 128 or more; otherwise it has the input's length and holds the lowercased byte at every position |
| Phrases.FromStrIdempotent | src/main.rs:18-33 | a phrase is lowercase ASCII, and validating a phrase again returns it unchanged |
| Phrases.Tokens | src/main.rs:112 | `split_whitespace` yields only non-empty tokens, none longer than the phrase (which tokens they are is stated by `Phrases.TokensAreRuns`) |
| Phrases.RunLength | src/main.rs:112 | the length of the leading run of non-whitespace bytes: every byte in the run is non-whitespace and the byte after it is whitespace |
| Phrases.TokensSpec | src/main.rs:112 | splitting at whitespace gives non-empty tokens that hold no whitespace, and every non-whitespace byte of the phrase occurs in some token |
| Phrases.TokensAreRuns | src/main.rs:112 | a byte string is a token exactly when it is a maximal non-whitespace run of the phrase: a non-empty slice `s[a..b]` without whitespace, with whitespace or the start of the phrase before it and whitespace or the end after it |
| Phrases.RunShift | src/main.rs:112 | cutting the phrase at a point that no run crosses moves every run by the cut's offset, in both directions |
| Phrases.RunsAfterWhitespace | src/main.rs:112 | a leading whitespace byte starts no run, so the phrase has the runs of its tail |
| Phrases.RunsAfterFirstRun | src/main.rs:112 | a phrase that starts with a run has that run as its first token and the runs after it as its other tokens |
| Phrases.TokenIsRun | src/main.rs:112 | every token of such a phrase is one of its runs |
| Phrases.RunIsToken | src/main.rs:112 | every run of such a phrase is one of its tokens |
| Phrases.TokenBytesInPhrase | src/main.rs:112 | every byte of every token occurs in the phrase |
| Phrases.TokenBytesNotWhitespace | src/main.rs:112 | no byte of any token is whitespace |
| Phrases.Dedup | src/main.rs:111-114 | collecting the tokens into a set keeps exactly the same tokens, with no token twice |
| Phrases.Render | src/main.rs:119-122 | rendering a phrase through a mapping keeps its length, byte for byte (what each byte becomes is in `Phrases.RenderAt`) |
| Phrases.ToChars | src/main.rs:122-123 | `as char` makes one character per byte, whose code point is the byte's value |
| Phrases.ToCharsInjective | src/main.rs:122-123 | `as char` is one-to-one: equal strings come from equal byte strings |
| Phrases.RenderAt | src/main.rs:119-123 | rendering replaces a mapped byte by its image and passes an unmapped byte through unchanged |
| Mappings.InjectiveIffValuesCard | src/main.rs:212-216 | a map never has more distinct values than keys, and it is injective exactly when their counts are equal; this is what the `value_set.len() != new_mapping.len()` test checks |
| Mappings.ExtendsKeepsInjective | src/main.rs:212-216 | a map contained in an injective map is injective |
| Patterns.FromStr | src/main.rs:46-60 | the loop over the bytes with `next_symbol` and `symbol_map` computes exactly `Canon(s)` |
| Patterns.TableShape | src/main.rs:49-56 | the symbol table has the bytes of the word as its keys and gives them distinct symbols below its size |
| Patterns.ElemsSnoc | src/main.rs:51 | the bytes of a non-empty word are the bytes before its last byte, plus the last byte |
| Patterns.TableGrows | src/main.rs:52-56 | scanning further never changes a symbol that was already handed out |
| Patterns.CanonAt | src/main.rs:46-60 | the pattern has one symbol per byte, and position i holds the symbol of byte i |
| Patterns.CanonEqualIff | src/main.rs:46-60 | positions i and j get equal symbols if and only if they hold equal bytes |
| Patterns.FirstOccurrence | src/main.rs:52-56 | a byte seen for the first time gets the number of distinct bytes before it, so the first symbol is 0; a repeated byte gets the symbol of its earlier occurrence |
| Patterns.CanonValues | src/main.rs:52-56 | the symbols in a pattern are exactly the values of the symbol table |
| Patterns.SamePatternIff | src/main.rs:46-60 | two words have the same pattern if and only if they have the same equal-byte/unequal-byte structure |
| Patterns.PatternGivesShape | src/main.rs:46-60 | equal patterns imply the same structure |
| Patterns.ShapeGivesPattern | src/main.rs:46-60 | the same structure implies equal patterns |
| Patterns.ExampleBook | src/main.rs:46-60 | "book" has pattern [0, 1, 1, 2] |
| Patterns.ExampleDeed | src/main.rs:46-60 | "deed" has pattern [0, 1, 1, 0] |
| Search.WordSetSpec | src/main.rs:73 | the set of words gathered from the first n dictionary entries holds exactly those entries |
| Solving.InsertPattern | src/main.rs:74-78 | adding a word to the bucket of its pattern (creating the bucket if it is missing) keeps the pattern index exact for the dictionary with that word added |
| Solving.StartWord | src/main.rs:80 | before the inner loop none of the new word's positions is indexed, and the position index is exact for the earlier words |
| Solving.InsertPosition | src/main.rs:80-88 | adding the word to the (idx, byte) bucket, creating the inner map or the bucket if missing, indexes one more of its positions |
| Solving.Inserted | src/main.rs:81-87 | the insertion leaves the word in the (j, w[j]) bucket and keeps every (position, byte) pair that was present |
| Solving.InsertKeepsDone | src/main.rs:81-87 | the insertion keeps every pair of the earlier words present |
| Solving.InsertExtendsPrefix | src/main.rs:81-87 | the insertion makes the pair (j, w[j]) present on top of the word's pairs before j |
| Solving.InsertPositionBuckets | src/main.rs:81-87 | after that insertion every present bucket holds exactly the words indexed so far that have its byte at its position |
| Solving.PartialBucketStep | src/main.rs:81-87 | indexing position j of a word adds it to the (j, w[j]) bucket and to no other |
| Solving.FinishWord | src/main.rs:80-88 | once all positions of the word are indexed, the position index is exact for the dictionary with the word added |
| Solving.FullBucket | src/main.rs:80-88 | a bucket with all of the word indexed is that bucket of the larger dictionary |
| Solving.IndexWord | src/main.rs:74-88 | one pass of the outer loop keeps both indexes exact for the dictionary with this word added |
| Solving.BuildIndex | src/main.rs:70-92 | after the loops both indexes are exact for the dictionary, which holds exactly the given words |
| Solving.ExactIsIndexed | src/main.rs:70-92 | in an exact index, a pattern or (position, byte) pair that some word has is a key, and each bucket holds exactly the words with its key |
| Solving.IndexedIsExact | src/main.rs:70-92 | conversely, every word sits in the bucket of its pattern and in the bucket of each of its (position, byte) pairs |
| Solving.PatternIndexedIsExact | src/main.rs:74-78 | the pattern half of that converse |
| Solving.PositionIndexedIsExact | src/main.rs:80-88 | the position half of that converse |
| Solving.Solver.FromDictionary | src/main.rs:70-92 | the built index is exact, and the solver's dictionary is exactly the set of the given words |
| Solving.Solver.WordsByPattern | src/main.rs:94-100 | the words of the dictionary with the word's pattern, and the empty set for a pattern no word has |
| Solving.Solver.WordsByCharacterAndIndex | src/main.rs:102-106 | `Some` exactly when some dictionary word holds the byte at that index, and then the set of exactly those words |
| Solving.Solver.FindCandidateMatches | src/main.rs:161-178 | the loop of `retain` calls results in exactly `Candidates`: the pattern bucket filtered position by position |
| Search.FilteredMembers | src/main.rs:164-175 | after k positions, the words are those of the pattern bucket that pass the filter at each of those positions |
| Search.CandidateInBucket | src/main.rs:166 | a candidate is a dictionary word with the token's pattern, so it has the token's length |
| Search.CandidatesSpec | src/main.rs:161-178 | the candidates are a subset of the pattern bucket and include every word of the bucket that agrees with the mapping; when every mapped position has its bucket, they are exactly those words |
| Search.MissingBucketKeepsAll | src/main.rs:170-173 | a mapped position whose (idx, image) bucket does not exist filters nothing |
| Search.UnmappedKeepsAll | src/main.rs:169 | an unmapped position filters nothing |
| Search.MappedIntersects | src/main.rs:167-173 | a mapped position whose bucket exists intersects the candidates with that bucket |
| Search.FilteredNone | src/main.rs:166 | before any position is filtered, the candidates are the pattern bucket |
| Search.ZipSource | src/main.rs:189-203 | every key of the zipped pairs is the encrypted byte of some position before n, and its value is the plaintext byte at that position |
| Search.ZipKeys | src/main.rs:189-203 | the zipped pairs have as keys exactly the encrypted bytes of the first n positions |
| Search.ZipAt | src/main.rs:189-203 | when the pairs are consistent, encrypted byte i maps to plaintext byte i |
| Search.ConsistentStep | src/main.rs:190-194 | pair i keeps the pairs consistent exactly when its encrypted byte is new or already paired with the same plaintext byte |
| Search.PairsPrefix | src/main.rs:189-200 | the consistency of the first n pairs implies the consistency of every shorter prefix |
| Solving.ZipPairs | src/main.rs:187-203 | the zip loop returns `None` exactly when two pairs clash or a pair clashes with the mapping; otherwise it returns the zipped pairs |
| Solving.MergeMissing | src/main.rs:205-210 | the `or_insert` merge copies every entry of the mapping whose key is missing and keeps every new pair: the result is the mapping overridden by the pairs |
| Solving.Solver.TryExtendMapping | src/main.rs:181-219 | the result is exactly `Extend(mapping, encrypted, word)` |
| Search.ExtendNone | src/main.rs:187-216 | extension fails exactly when an encrypted byte pairs with two plaintext bytes, when an encrypted byte is already mapped elsewhere, or when the merged map is not injective |
| Search.ExtendSome | src/main.rs:187-218 | a successful extension agrees with the mapping on all its keys, maps `encrypted[i]` to `word[i]` for every i below the shorter length, has as domain the mapping's keys plus those encrypted bytes, and is injective |
| Search.NoTokensSolution | src/main.rs:142 | with no tokens left, the only solution is the mapping itself |
| Search.WithoutSpec | src/main.rs:141 | removing the popped token leaves one token fewer; every token is either the popped one or in the rest; and the bytes of all the tokens are those of the rest plus those of the popped token |
| Search.InjectiveRenderKeepsPattern | src/main.rs:161-164 | an injective mapping decodes a token into a word with the same pattern, which is why the pattern bucket is the right starting set |
| Search.SolvesDecodes | src/main.rs:130-159 | a solution decodes each of its tokens into a dictionary word, and maps every byte of the token |
| Search.SolutionKeepsPatterns | src/main.rs:137-157 | every solution extends the input mapping and decodes every token into a dictionary word with that token's pattern |
| Search.SoundStep | src/main.rs:143-156 | a solution for the remaining tokens, reached from the extension by a candidate of the popped token, solves all the tokens and decodes the popped token to that candidate |
| Search.RenderIsCandidate | src/main.rs:143 | a solution decodes the popped token into one of its candidates |
| Search.DecodingMerge | src/main.rs:205-210 | merging the pairs of a token and its decoding stays inside the solution and covers the token's bytes |
| Search.DecodingExtends | src/main.rs:181-219 | extending by the decoding under an injective solution succeeds, and gives the merged map |
| Search.ExtendByDecoding | src/main.rs:146-156 | from that extension the solution is also a solution for the remaining tokens |
| Search.CompleteStep | src/main.rs:143-156 | a solution for all the tokens decodes the popped token into a candidate whose extension succeeds, and it solves the remaining tokens from there |
| Search.CollectStep | src/main.rs:153-156 | the solutions found through one candidate are exactly the solutions that decode the popped token into that candidate: each found mapping is a solution and decodes the token to it, and each such solution is found |
| Search.CollectMore | src/main.rs:153-156 | appending the solutions found through one more candidate keeps the collection exact: exactly the solutions that decode the popped token into a visited candidate, none twice |
| Search.CollectedAll | src/main.rs:153-156 | once every candidate is visited, the collection is exactly the solutions, none twice |
| Search.StepCovers | src/main.rs:143-156 | every solution goes through one of the candidates kept in `candidate_mappings` |
| Search.SolutionsRenderApart | src/main.rs:118-124 | two solutions for the phrase's tokens that render the phrase alike are the same mapping, so distinct mappings give distinct strings |
| Search.DecodingsDistinct | src/main.rs:118-124 | rendering a list of distinct solutions, one string per mapping, gives a list without repeats |
| Search.SolvesSameTokens | src/main.rs:111-114 | whether a mapping is a solution depends only on which tokens are present, not on their order or repeats |
| Solving.Solver.PickMostConstrained | src/main.rs:137-141 | stable-sorting by descending candidate count and popping picks a token with the fewest candidates, and no later token has as few |
| Solving.Solver.CandidateMappings | src/main.rs:143-151 | `candidate_mappings` holds exactly the candidates whose extension succeeds, each with its extension |
| Solving.Solver.Guess | src/main.rs:130-159 | every returned mapping is a solution for the tokens from the given mapping, and every solution is returned; no mapping is returned twice; with no tokens the result is exactly `[mapping]` |
| Solving.Solver.GuessEach | src/main.rs:153-156 | concatenating the recursive results over `candidate_mappings` gives exactly the solutions, none twice, because different candidates decode the popped token differently |
| Solving.Solver.GuessThrough | src/main.rs:155 | one round of the `flat_map`: the recursive call's solutions for the chosen candidate are appended to those collected so far, which stay in front, and the collection stays exact |
| Solving.Solver.Solve | src/main.rs:108-125 | every output is the phrase rendered through a solution for its whitespace-separated tokens and read as characters; every solution's rendering is output; each output has one character per phrase byte, with whitespace unchanged; no string is output twice |

## Left out

- `main` (src/main.rs:222-247) is not modelled. It reads the command line, loads the word list, times the calls, sorts and prints. None of this is solver logic.
- The `time!` macro and the stopwatch (src/main.rs:9-16) are not modelled: they only measure wall-clock time.
- The FxHash hash functions and the iteration order of the hash maps and sets are not modelled. Sets and maps are Dafny `set` and `map`. The loops over a set pick an arbitrary remaining element. The vector `guess` returns is specified only by membership, not order. Likewise `solve`'s token vector, which comes from a hash set, is modelled by `Dedup`, which keeps first occurrences in order.
- Solving.Solver.Guess: the model computes the candidate count of each token in one loop and takes the last token with the fewest candidates. That is the token the stable `sort_by_key` followed by `pop` yields. The recursion then receives the other tokens in their original order, not in the sorted order. The Rust vector is a permutation of that list, and `Search.SolvesSameTokens` shows that the order does not change the solutions.
- Solving.Solver.Guess: the model reuses nothing between the sort and the candidate computation for the popped token. As in the source, `find_candidate_matches` is called again for that token.
- Patterns.FromStr: pattern symbols are unbounded `nat`, where the source uses `u8`. The `u8` would overflow only for a word with 256 distinct byte values. A Rust `&str` is UTF-8 and can hold at most 243 distinct byte values, so this case does not arise.
- Phrases.Tokens: whitespace is ASCII whitespace (bytes 9 to 13 and 32). `split_whitespace` also splits at non-ASCII Unicode whitespace, but a phrase is ASCII by construction.
- The dictionary index holds copies of the words, where the source holds `&str` borrowed from the word list; lifetimes and borrowing carry no behaviour here.
- Solving.Solver.FromDictionary: the loops build two local maps, and the constructor assigns them to the constant fields. In the source the loops mutate the fields of `solver` in place. No other code observes the solver during construction, and nothing changes the index afterwards.
