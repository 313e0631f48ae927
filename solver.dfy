/** The `Solver`: the dictionary index, built once by `from_dictionary` and
    only read afterwards, and the search over it. */
module Solving {
  import opened Bytes
  import opened Options
  import opened Mappings
  import opened Patterns
  import opened Phrases
  import opened Search

  /** The pattern index is exact for `dict`: every word sits in the bucket of
      its pattern, and each bucket holds exactly the words with its pattern. */
  ghost predicate PatternIndexExact(byPattern: map<Pattern, set<Word>>, dict: set<Word>)
  {
    && (forall w :: w in dict ==> Canon(w) in byPattern)
    && (forall p :: p in byPattern ==> byPattern[p] == PatternBucket(dict, p))
  }

  /** A (position, byte) bucket along the way: the bucket of the words already
      indexed, plus `w` if its bytes before `j` have been indexed and `w` holds
      `b` at `idx`. */
  ghost function PartialBucket(done: set<Word>, w: Word, j: nat, idx: nat, b: Byte): set<Word>
  {
    PositionBucket(done, idx, b) + (if idx < j && idx < |w| && w[idx] == b then {w} else {})
  }

  /** The position index holds the words of `done`, and `w` at its positions
      before `j`: each present bucket is non-empty and exact. */
  ghost predicate PositionIndexPartial(byPosition: map<nat, map<Byte, set<Word>>>, done: set<Word>, w: Word, j: nat)
  {
    DoneIndexed(byPosition, done) && PrefixIndexed(byPosition, w, j) && BucketsPartial(byPosition, done, w, j)
  }

  /** Every (position, byte) pair of a word of `done` is present. */
  ghost predicate DoneIndexed(byPosition: map<nat, map<Byte, set<Word>>>, done: set<Word>)
  {
    forall x, idx :: x in done && 0 <= idx < |x| ==> idx in byPosition && x[idx] in byPosition[idx]
  }

  /** The (position, byte) pairs of `w` before `j` are present. */
  ghost predicate PrefixIndexed(byPosition: map<nat, map<Byte, set<Word>>>, w: Word, j: nat)
  {
    forall idx :: 0 <= idx < j && idx < |w| ==> idx in byPosition && w[idx] in byPosition[idx]
  }

  /** Each present bucket is non-empty and holds exactly its partial bucket. */
  ghost predicate BucketsPartial(byPosition: map<nat, map<Byte, set<Word>>>, done: set<Word>, w: Word, j: nat)
  {
    forall idx, b :: idx in byPosition && b in byPosition[idx] ==>
      byPosition[idx][b] == PartialBucket(done, w, j, idx, b) && byPosition[idx][b] != {}
  }

  /** The position index is exact for `dict`: every (position, byte) pair of a
      word has its bucket, and each bucket holds exactly the words with that
      byte at that position. */
  ghost predicate PositionIndexExact(byPosition: map<nat, map<Byte, set<Word>>>, dict: set<Word>)
  {
    && (forall w, idx :: w in dict && 0 <= idx < |w| ==> idx in byPosition && w[idx] in byPosition[idx])
    && (forall idx, b :: idx in byPosition && b in byPosition[idx] ==>
          byPosition[idx][b] == PositionBucket(dict, idx, b) && byPosition[idx][b] != {})
  }

  /** Inserting `w` into the bucket of its pattern keeps the pattern index exact. */
  lemma InsertPattern(byPattern: map<Pattern, set<Word>>, dict: set<Word>, w: Word)
    requires PatternIndexExact(byPattern, dict)
    ensures var p := Canon(w);
      PatternIndexExact(byPattern[p := (if p in byPattern then byPattern[p] else {}) + {w}], dict + {w})
  {
    var p := Canon(w);
    var bucket := if p in byPattern then byPattern[p] else {};
    var after := byPattern[p := bucket + {w}];
    assert p !in byPattern ==> PatternBucket(dict, p) == {};
    forall q | q in after ensures after[q] == PatternBucket(dict + {w}, q) {
      if q == p {
        assert PatternBucket(dict + {w}, q) == PatternBucket(dict, q) + {w};
      } else {
        assert PatternBucket(dict + {w}, q) == PatternBucket(dict, q);
      }
    }
  }

  /** Starting on a word: nothing of it is indexed yet. */
  lemma StartWord(byPosition: map<nat, map<Byte, set<Word>>>, dict: set<Word>, w: Word)
    requires PositionIndexExact(byPosition, dict)
    ensures PositionIndexPartial(byPosition, dict, w, 0)
  {
  }

  /** The position index with `w` added to the bucket of (j, w[j]),
      the inner map and the bucket created empty first when missing. */
  function Inserted(byPosition: map<nat, map<Byte, set<Word>>>, j: nat, w: Word): (r: map<nat, map<Byte, set<Word>>>)
    requires j < |w|
    ensures j in r && w[j] in r[j] && w in r[j][w[j]]
    ensures forall idx, b :: idx in byPosition && b in byPosition[idx] ==> idx in r && b in r[idx]
  {
    var inner := if j in byPosition then byPosition[j] else map[];
    var cell := if w[j] in inner then inner[w[j]] else {};
    byPosition[j := inner[w[j] := cell + {w}]]
  }

  /** Inserting `w` into the bucket of (j, w[j]) indexes one more of its positions. */
  lemma InsertPosition(byPosition: map<nat, map<Byte, set<Word>>>, dict: set<Word>, w: Word, j: nat)
    requires j < |w|
    requires PositionIndexPartial(byPosition, dict, w, j)
    ensures PositionIndexPartial(Inserted(byPosition, j, w), dict, w, j + 1)
  {
    InsertPositionBuckets(byPosition, dict, w, j);
    InsertKeepsDone(byPosition, dict, w, j);
    InsertExtendsPrefix(byPosition, w, j);
  }

  /** The insertion keeps every pair of the earlier words present. */
  lemma InsertKeepsDone(byPosition: map<nat, map<Byte, set<Word>>>, dict: set<Word>, w: Word, j: nat)
    requires j < |w|
    requires DoneIndexed(byPosition, dict)
    ensures DoneIndexed(Inserted(byPosition, j, w), dict)
  {
    var after := Inserted(byPosition, j, w);
    forall x, idx | x in dict && 0 <= idx < |x| ensures idx in after && x[idx] in after[idx] {
      assert idx in byPosition && x[idx] in byPosition[idx];
    }
  }

  /** The insertion makes the pair (j, w[j]) present, on top of those before j. */
  lemma InsertExtendsPrefix(byPosition: map<nat, map<Byte, set<Word>>>, w: Word, j: nat)
    requires j < |w|
    requires PrefixIndexed(byPosition, w, j)
    ensures PrefixIndexed(Inserted(byPosition, j, w), w, j + 1)
  {
    var after := Inserted(byPosition, j, w);
    forall idx | 0 <= idx < j + 1 && idx < |w| ensures idx in after && w[idx] in after[idx] {
      if idx < j {
        assert idx in byPosition && w[idx] in byPosition[idx];
      }
    }
  }

  /** The bucket half of `InsertPosition`: every present bucket stays exact. */
  lemma InsertPositionBuckets(byPosition: map<nat, map<Byte, set<Word>>>, dict: set<Word>, w: Word, j: nat)
    requires j < |w|
    requires PositionIndexPartial(byPosition, dict, w, j)
    ensures BucketsPartial(Inserted(byPosition, j, w), dict, w, j + 1)
  {
    var u := w[j];
    var inner := if j in byPosition then byPosition[j] else map[];
    var cell := if u in inner then inner[u] else {};
    var after := Inserted(byPosition, j, w);
    assert after == byPosition[j := inner[u := cell + {w}]];
    assert u !in inner ==> PositionBucket(dict, j, u) == {};
    forall idx, b | idx in after && b in after[idx]
      ensures after[idx][b] == PartialBucket(dict, w, j + 1, idx, b) && after[idx][b] != {}
    {
      PartialBucketStep(dict, w, j, idx, b);
      if idx == j && b == u {
        assert cell == PartialBucket(dict, w, j, idx, b);
      }
    }
  }

  /** Indexing position j of `w` adds `w` to the bucket of (j, w[j]) only. */
  lemma PartialBucketStep(dict: set<Word>, w: Word, j: nat, idx: nat, b: Byte)
    requires j < |w|
    ensures PartialBucket(dict, w, j + 1, idx, b) ==
      PartialBucket(dict, w, j, idx, b) + (if idx == j && b == w[j] then {w} else {})
  {
  }

  /** Once every position of `w` is indexed, the index is exact for the
      dictionary with `w` added. */
  lemma FinishWord(byPosition: map<nat, map<Byte, set<Word>>>, dict: set<Word>, w: Word)
    requires PositionIndexPartial(byPosition, dict, w, |w|)
    ensures PositionIndexExact(byPosition, dict + {w})
  {
    forall idx, b | idx in byPosition && b in byPosition[idx]
      ensures byPosition[idx][b] == PositionBucket(dict + {w}, idx, b)
    {
      FullBucket(dict, w, idx, b);
    }
  }

  /** With all of `w` indexed, a partial bucket is the bucket of the larger dictionary. */
  lemma FullBucket(dict: set<Word>, w: Word, idx: nat, b: Byte)
    ensures PartialBucket(dict, w, |w|, idx, b) == PositionBucket(dict + {w}, idx, b)
  {
  }

  /** What the solver relies on of its pattern index: a pattern some word
      has is a key, and a key's bucket holds exactly the words with that
      pattern. */
  ghost predicate PatternIndexed(byPattern: map<Pattern, set<Word>>, dict: set<Word>)
  {
    && (forall p :: PatternBucket(dict, p) != {} ==> p in byPattern)
    && (forall p :: p in byPattern ==> byPattern[p] == PatternBucket(dict, p))
  }

  /** What the solver relies on of its position index: a (position, byte)
      pair some word has is present, and a present pair's bucket is exact and
      non-empty. */
  ghost predicate PositionIndexed(byPosition: map<nat, map<Byte, set<Word>>>, dict: set<Word>)
  {
    && (forall idx, b :: PositionBucket(dict, idx, b) != {} ==> idx in byPosition && b in byPosition[idx])
    && (forall idx, b :: idx in byPosition && b in byPosition[idx] ==>
          byPosition[idx][b] == PositionBucket(dict, idx, b) && byPosition[idx][b] != {})
  }

  /** The index built word by word has both properties. */
  lemma ExactIsIndexed(byPattern: map<Pattern, set<Word>>, byPosition: map<nat, map<Byte, set<Word>>>, dict: set<Word>)
    requires PatternIndexExact(byPattern, dict) && PositionIndexExact(byPosition, dict)
    ensures PatternIndexed(byPattern, dict) && PositionIndexed(byPosition, dict)
  {
    forall p | PatternBucket(dict, p) != {} ensures p in byPattern {
      var w :| w in PatternBucket(dict, p);
    }
    forall idx, b | PositionBucket(dict, idx, b) != {} ensures idx in byPosition && b in byPosition[idx] {
      var w :| w in PositionBucket(dict, idx, b);
    }
  }

  /** The two properties give back the exact index: every word sits in its
      pattern bucket and in the bucket of each of its (position, byte) pairs. */
  lemma IndexedIsExact(byPattern: map<Pattern, set<Word>>, byPosition: map<nat, map<Byte, set<Word>>>, dict: set<Word>)
    requires PatternIndexed(byPattern, dict) && PositionIndexed(byPosition, dict)
    ensures PatternIndexExact(byPattern, dict) && PositionIndexExact(byPosition, dict)
  {
    PatternIndexedIsExact(byPattern, dict);
    PositionIndexedIsExact(byPosition, dict);
  }

  /** The pattern half of `IndexedIsExact`. */
  lemma PatternIndexedIsExact(byPattern: map<Pattern, set<Word>>, dict: set<Word>)
    requires PatternIndexed(byPattern, dict)
    ensures PatternIndexExact(byPattern, dict)
  {
    forall w | w in dict ensures Canon(w) in byPattern {
      assert w in PatternBucket(dict, Canon(w));
    }
  }

  /** The position half of `IndexedIsExact`. */
  lemma PositionIndexedIsExact(byPosition: map<nat, map<Byte, set<Word>>>, dict: set<Word>)
    requires PositionIndexed(byPosition, dict)
    ensures PositionIndexExact(byPosition, dict)
  {
    forall w, idx | w in dict && 0 <= idx < |w| ensures idx in byPosition && w[idx] in byPosition[idx] {
      assert w in PositionBucket(dict, idx, w[idx]);
    }
  }

  /** One round of the outer loop of `from_dictionary`: put `word` into the
      bucket of its pattern, then into the bucket of each of its
      (position, byte) pairs. */
  method IndexWord(byPattern0: map<Pattern, set<Word>>, byPosition0: map<nat, map<Byte, set<Word>>>,
                   ghost dict: set<Word>, word: Word)
    returns (byPattern: map<Pattern, set<Word>>, byPosition: map<nat, map<Byte, set<Word>>>)
    requires PatternIndexed(byPattern0, dict) && PositionIndexed(byPosition0, dict)
    ensures PatternIndexed(byPattern, dict + {word}) && PositionIndexed(byPosition, dict + {word})
  {
    IndexedIsExact(byPattern0, byPosition0, dict);
    var pattern := Patterns.FromStr(word);
    InsertPattern(byPattern0, dict, word);
    var bucket := if pattern in byPattern0 then byPattern0[pattern] else {};
    byPattern := byPattern0[pattern := bucket + {word}];
    byPosition := byPosition0;
    StartWord(byPosition, dict, word);
    var idx := 0;
    while idx < |word|
      invariant 0 <= idx <= |word|
      invariant PositionIndexPartial(byPosition, dict, word, idx)
    {
      InsertPosition(byPosition, dict, word, idx);
      var u := word[idx];
      var inner := if idx in byPosition then byPosition[idx] else map[];
      var cell := if u in inner then inner[u] else {};
      byPosition := byPosition[idx := inner[u := cell + {word}]];
      idx := idx + 1;
    }
    FinishWord(byPosition, dict, word);
    ExactIsIndexed(byPattern, byPosition, dict + {word});
  }

  /** The zip loop of `try_extend_mapping`: pair `encrypted` with `word`
      byte by byte, failing on a pair that clashes with an earlier pair or
      with `mapping`. */
  method ZipPairs(word: Word, encrypted: Word, mapping: Mapping) returns (r: Option<Mapping>)
    ensures r.None? <==> !SelfConsistent(encrypted, word) || !AgreesWith(mapping, encrypted, word)
    ensures r.Some? ==> r.value == Zip(encrypted, word, Min(|encrypted|, |word|))
  {
    var n := Min(|encrypted|, |word|);
    var newMapping: Mapping := map[];
    var i := 0;
    while i < n
      invariant 0 <= i <= n
      invariant newMapping == Zip(encrypted, word, i)
      invariant ConsistentPairs(encrypted, word, i)
      invariant AgreeingPairs(mapping, encrypted, word, i)
    {
      var uEncoded, uDecoded := encrypted[i], word[i];
      ConsistentStep(encrypted, word, i);
      PairsPrefix(mapping, encrypted, word, i + 1, n);
      if uEncoded in newMapping && newMapping[uEncoded] != uDecoded {
        return None;
      }
      if uEncoded in mapping && mapping[uEncoded] != uDecoded {
        return None;
      }
      newMapping := newMapping[uEncoded := uDecoded];
      i := i + 1;
    }
    return Some(newMapping);
  }

  /** The merge loop of `try_extend_mapping`: every entry of `mapping` whose
      key `pairs` lacks is copied in, and the entries of `pairs` stay. */
  method MergeMissing(pairs: Mapping, mapping: Mapping) returns (merged: Mapping)
    ensures merged == mapping + pairs
  {
    merged := pairs;
    var pending := mapping.Keys;
    while pending != {}
      invariant pending <= mapping.Keys
      invariant merged.Keys == pairs.Keys + (mapping.Keys - pending)
      invariant forall k :: k in pairs ==> merged[k] == pairs[k]
      invariant forall k :: k in mapping.Keys - pending && k !in pairs ==> merged[k] == mapping[k]
      decreases pending
    {
      var k :| k in pending;
      if k !in merged {
        merged := merged[k := mapping[k]];
      }
      pending := pending - {k};
    }
  }

  /** The loops of `from_dictionary`: index every word of `words` in turn. */
  method BuildIndex(words: seq<Word>)
    returns (byPattern: map<Pattern, set<Word>>, byPosition: map<nat, map<Byte, set<Word>>>, ghost dict: set<Word>)
    ensures PatternIndexed(byPattern, dict) && PositionIndexed(byPosition, dict)
    ensures forall w :: w in dict <==> w in words
  {
    byPattern, byPosition, dict := map[], map[], {};
    var i := 0;
    while i < |words|
      invariant 0 <= i <= |words|
      invariant dict == WordSet(words, i)
      invariant PatternIndexed(byPattern, dict) && PositionIndexed(byPosition, dict)
    {
      byPattern, byPosition := IndexWord(byPattern, byPosition, dict, words[i]);
      dict := dict + {words[i]};
      i := i + 1;
    }
    WordSetSpec(words, |words|);
    assert words[..|words|] == words;
  }

  class Solver {
    /** `words_by_pattern`: pattern -> the words with that pattern. */
    const byPattern: map<Pattern, set<Word>>
    /** `words_by_character_and_index`: position -> byte -> the words with that byte there. */
    const byPosition: map<nat, map<Byte, set<Word>>>
    /** The dictionary the index was built from. */
    ghost const Dictionary: set<Word>

    /** The index is exact: every word sits in its pattern bucket and in the
        bucket of each of its (position, byte) pairs, and a bucket holds
        exactly the dictionary words with its key. */
    ghost predicate Valid()
    {
      PatternIndexed(byPattern, Dictionary) && PositionIndexed(byPosition, Dictionary)
    }

    /** `Solver::from_dictionary`: index every word by its pattern and by each
        of its (position, byte) pairs. */
    constructor FromDictionary(words: seq<Word>)
      ensures Valid()
      ensures forall w :: w in Dictionary <==> w in words
    {
      var patterns, positions, dict := BuildIndex(words);
      byPattern, byPosition, Dictionary := patterns, positions, dict;
    }

    /** `words_by_pattern`: the words with the pattern of `word`, the empty
        set for a pattern no dictionary word has. */
    method WordsByPattern(word: Word) returns (r: set<Word>)
      requires Valid()
      ensures r == PatternBucket(Dictionary, Canon(word))
    {
      var pattern := Patterns.FromStr(word);
      if pattern in byPattern {
        r := byPattern[pattern];
      } else {
        r := {};
      }
    }

    /** `words_by_character_and_index`: the bucket of (idx, u) if some
        dictionary word holds `u` at `idx`, and `None` otherwise. */
    method WordsByCharacterAndIndex(u: Byte, idx: nat) returns (r: Option<set<Word>>)
      requires Valid()
      ensures r.Some? <==> PositionBucket(Dictionary, idx, u) != {}
      ensures r.Some? ==> r.value == PositionBucket(Dictionary, idx, u)
    {
      if idx in byPosition && u in byPosition[idx] {
        r := Some(byPosition[idx][u]);
      } else {
        r := None;
      }
    }

    /** `find_candidate_matches`: the pattern bucket of `word`, narrowed at each
        mapped position to the bucket of (position, image) when that bucket
        exists. */
    method FindCandidateMatches(word: Word, mapping: Mapping) returns (candidates: set<Word>)
      requires Valid()
      ensures candidates == Candidates(Dictionary, word, mapping)
    {
      candidates := WordsByPattern(word);
      FilteredNone(Dictionary, word, mapping);
      var idx := 0;
      while idx < |word|
        invariant 0 <= idx <= |word|
        invariant candidates == FilteredUpTo(Dictionary, word, mapping, idx)
      {
        var u := word[idx];
        if u in mapping {
          var others := WordsByCharacterAndIndex(mapping[u], idx);
          if others.Some? {
            MappedIntersects(Dictionary, word, mapping, idx);
            candidates := candidates * others.value;
          } else {
            MissingBucketKeepsAll(Dictionary, word, mapping, idx);
          }
        } else {
          UnmappedKeepsAll(Dictionary, word, mapping, idx);
        }
        idx := idx + 1;
      }
    }

    /** `try_extend_mapping`: extend `mapping` by decoding `encrypted` as `word`. */
    method TryExtendMapping(word: Word, encrypted: Word, mapping: Mapping) returns (r: Option<Mapping>)
      ensures r == Extend(mapping, encrypted, word)
    {
      var pairs := ZipPairs(word, encrypted, mapping);
      if pairs.None? {
        return None;
      }
      var newMapping := MergeMissing(pairs.value, mapping);
      var valueSet := newMapping.Values;
      if |valueSet| != |newMapping| {
        return None;
      }
      return Some(newMapping);
    }

    /** The token `guess` works on next: sorting the tokens by descending
        candidate count (a stable sort) and popping the last one picks the
        last of the tokens with the fewest candidates. */
    method PickMostConstrained(mapping: Mapping, tokens: seq<Word>) returns (k: nat)
      requires Valid()
      requires tokens != []
      ensures k < |tokens|
      ensures forall j :: 0 <= j < |tokens| ==>
        |Candidates(Dictionary, tokens[k], mapping)| <= |Candidates(Dictionary, tokens[j], mapping)|
      ensures forall j :: k < j < |tokens| ==>
        |Candidates(Dictionary, tokens[k], mapping)| < |Candidates(Dictionary, tokens[j], mapping)|
    {
      var first := FindCandidateMatches(tokens[0], mapping);
      var best := |first|;
      ghost var counts := [best];
      k := 0;
      var j := 1;
      while j < |tokens|
        invariant 1 <= j <= |tokens|
        invariant k < j
        invariant |counts| == j
        invariant forall i :: 0 <= i < j ==> counts[i] == |Candidates(Dictionary, tokens[i], mapping)|
        invariant best == counts[k]
        invariant forall i :: 0 <= i < j ==> best <= counts[i]
        invariant forall i :: k < i < j ==> best < counts[i]
      {
        var candidates := FindCandidateMatches(tokens[j], mapping);
        counts := counts + [|candidates|];
        if |candidates| <= best {
          best := |candidates|;
          k := j;
        }
        j := j + 1;
      }
    }

    /** The first half of a `guess` step: extend `mapping` by each candidate
        decryption of `encryptedWord`, keeping the extensions that succeed,
        keyed by the candidate. */
    method CandidateMappings(encryptedWord: Word, mapping: Mapping) returns (candidateMappings: map<Word, Mapping>)
      requires Valid()
      ensures StepMappings(Dictionary, mapping, encryptedWord, candidateMappings)
    {
      var candidateWords := FindCandidateMatches(encryptedWord, mapping);
      candidateMappings := map[];
      var pending := candidateWords;
      while pending != {}
        invariant pending <= candidateWords
        invariant forall w :: w in candidateMappings ==>
          w in candidateWords && Extend(mapping, encryptedWord, w) == Some(candidateMappings[w])
        invariant forall w :: w in candidateWords - pending && Extend(mapping, encryptedWord, w).Some? ==>
          w in candidateMappings
        decreases pending
      {
        var word :| word in pending;
        var extended := TryExtendMapping(word, encryptedWord, mapping);
        if extended.Some? {
          candidateMappings := candidateMappings[word := extended.value];
        }
        pending := pending - {word};
      }
    }

    /** `guess`: every mapping that extends `mapping` to decode all of
        `encryptedWords` into dictionary words, found by fixing the most
        constrained token to each of its candidates in turn. */
    method Guess(mapping: Mapping, encryptedWords: seq<Word>) returns (solutions: seq<Mapping>)
      requires Valid()
      ensures forall m :: m in solutions ==> Solves(Dictionary, mapping, encryptedWords, m)
      ensures forall m :: Solves(Dictionary, mapping, encryptedWords, m) ==> m in solutions
      ensures forall i, j :: 0 <= i < j < |solutions| ==> solutions[i] != solutions[j]
      ensures encryptedWords == [] ==> solutions == [mapping]
      decreases |encryptedWords|, 2
    {
      if encryptedWords == [] {
        forall m ensures Solves(Dictionary, mapping, [], m) <==> m == mapping {
          NoTokensSolution(Dictionary, mapping, m);
        }
        return [mapping];
      }
      var k := PickMostConstrained(mapping, encryptedWords);
      var candidateMappings := CandidateMappings(encryptedWords[k], mapping);
      solutions := GuessEach(mapping, encryptedWords, k, candidateMappings);
    }

    /** The second half of a `guess` step: recurse on the remaining tokens from
        each extension and concatenate what the recursive calls find. */
    method GuessEach(mapping: Mapping, encryptedWords: seq<Word>, k: nat, candidateMappings: map<Word, Mapping>)
      returns (solutions: seq<Mapping>)
      requires Valid()
      requires k < |encryptedWords|
      requires StepMappings(Dictionary, mapping, encryptedWords[k], candidateMappings)
      ensures forall m :: m in solutions ==> Solves(Dictionary, mapping, encryptedWords, m)
      ensures forall m :: Solves(Dictionary, mapping, encryptedWords, m) ==> m in solutions
      ensures forall i, j :: 0 <= i < j < |solutions| ==> solutions[i] != solutions[j]
      decreases |encryptedWords|, 1
    {
      solutions := [];
      var left := candidateMappings.Keys;
      while left != {}
        invariant left <= candidateMappings.Keys
        invariant Collected(Dictionary, mapping, encryptedWords, k, candidateMappings.Keys - left, solutions)
        decreases left
      {
        var word :| word in left;
        solutions := GuessThrough(mapping, encryptedWords, k, candidateMappings, left, solutions, word);
        left := left - {word};
      }
      assert candidateMappings.Keys - left == candidateMappings.Keys;
      CollectedAll(Dictionary, mapping, encryptedWords, k, candidateMappings, solutions);
    }

    /** One round of the `flat_map`: the solutions of the remaining tokens
        from the extension by `word`, appended to those collected for the
        candidates already visited (those not in `left`). */
    method GuessThrough(mapping: Mapping, encryptedWords: seq<Word>, k: nat, candidateMappings: map<Word, Mapping>,
                        ghost left: set<Word>, collected: seq<Mapping>, word: Word)
      returns (solutions: seq<Mapping>)
      requires Valid()
      requires k < |encryptedWords|
      requires StepMappings(Dictionary, mapping, encryptedWords[k], candidateMappings)
      requires left <= candidateMappings.Keys && word in left
      requires Collected(Dictionary, mapping, encryptedWords, k, candidateMappings.Keys - left, collected)
      ensures Collected(Dictionary, mapping, encryptedWords, k, candidateMappings.Keys - (left - {word}), solutions)
      ensures |solutions| >= |collected| && solutions[..|collected|] == collected
      decreases |encryptedWords|, 0
    {
      var rest := Without(encryptedWords, k);
      WithoutSpec(encryptedWords, k);
      var found := Guess(candidateMappings[word], rest);
      ghost var done := candidateMappings.Keys - left;
      CollectMore(Dictionary, mapping, encryptedWords, k, candidateMappings, done, collected, word, found);
      assert candidateMappings.Keys - (left - {word}) == done + {word};
      solutions := collected + found;
    }

    /** `solve`: split the phrase at whitespace, drop repeated tokens, search
        for every mapping that decodes them all, and render the phrase
        through each as a string of characters. */
    method Solve(phrase: seq<Byte>) returns (decoded: seq<string>)
      requires Valid()
      ensures forall d :: d in decoded ==>
        exists m :: Solves(Dictionary, map[], Tokens(phrase), m) && d == ToChars(Render(phrase, m))
      ensures forall m :: Solves(Dictionary, map[], Tokens(phrase), m) ==> ToChars(Render(phrase, m)) in decoded
      ensures forall d :: d in decoded ==>
        |d| == |phrase| && forall i :: 0 <= i < |phrase| && IsWhitespace(phrase[i]) ==> d[i] == phrase[i] as char
      ensures forall i, j :: 0 <= i < j < |decoded| ==> decoded[i] != decoded[j]
    {
      var encryptedWords := Dedup(Tokens(phrase));
      forall m ensures Solves(Dictionary, map[], encryptedWords, m) <==> Solves(Dictionary, map[], Tokens(phrase), m) {
        SolvesSameTokens(Dictionary, map[], encryptedWords, Tokens(phrase), m);
      }
      var mappings := Guess(map[], encryptedWords);
      decoded := seq(|mappings|, i requires 0 <= i < |mappings| => ToChars(Render(phrase, mappings[i])));
      TokenBytesNotWhitespace(phrase);
      forall d | d in decoded
        ensures exists m :: Solves(Dictionary, map[], Tokens(phrase), m) && d == ToChars(Render(phrase, m))
        ensures |d| == |phrase| && forall i :: 0 <= i < |phrase| && IsWhitespace(phrase[i]) ==> d[i] == phrase[i] as char
      {
        var j :| 0 <= j < |mappings| && decoded[j] == d;
        var m := mappings[j];
        assert Solves(Dictionary, map[], Tokens(phrase), m);
        forall i | 0 <= i < |phrase| && IsWhitespace(phrase[i]) ensures d[i] == phrase[i] as char {
          RenderAt(phrase, m, i);
        }
      }
      DecodingsDistinct(Dictionary, phrase, mappings, decoded);
      forall m | Solves(Dictionary, map[], Tokens(phrase), m) ensures ToChars(Render(phrase, m)) in decoded {
        var j :| 0 <= j < |mappings| && mappings[j] == m;
        assert decoded[j] == ToChars(Render(phrase, m));
      }
    }
  }
}
