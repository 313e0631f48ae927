/** What the solver computes, stated over the dictionary as a set of words:
    the two index lookups, the candidate filter, the mapping extension, and the
    solutions that the backtracking search enumerates. */
module Search {
  import opened Bytes
  import opened Options
  import opened Mappings
  import opened Patterns
  import opened Phrases

  /** The first n words of a word list, as a set. */
  ghost function WordSet(words: seq<Word>, n: nat): set<Word>
    requires n <= |words|
  {
    if n == 0 then {} else WordSet(words, n - 1) + {words[n - 1]}
  }

  lemma {:induction false} WordSetSpec(words: seq<Word>, n: nat)
    requires n <= |words|
    ensures forall w :: w in WordSet(words, n) <==> w in words[..n]
  {
    if n > 0 {
      WordSetSpec(words, n - 1);
      assert words[..n] == words[..n - 1] + [words[n - 1]];
    }
  }

  /** The dictionary words with pattern `p`. */
  ghost function PatternBucket(dict: set<Word>, p: Pattern): set<Word>
  {
    set w | w in dict && Canon(w) == p
  }

  /** The dictionary words holding byte `b` at position `idx`. */
  ghost function PositionBucket(dict: set<Word>, idx: nat, b: Byte): set<Word>
  {
    set w | w in dict && idx < |w| && w[idx] == b
  }

  /** The filter `find_candidate_matches` applies at position `idx` of the
      encrypted `token`: if the byte there is mapped to `m` and the (idx, m)
      bucket exists, the candidate must hold `m` at `idx`; if the byte is
      unmapped or the bucket does not exist, nothing is filtered. */
  ghost predicate PassesAt(dict: set<Word>, token: Word, mapping: Mapping, idx: nat, w: Word)
    requires idx < |token|
  {
    token[idx] in mapping && PositionBucket(dict, idx, mapping[token[idx]]) != {} ==>
      idx < |w| && w[idx] == mapping[token[idx]]
  }

  /** The pattern bucket of `token`, filtered at positions 0 .. k-1, one
      position after the other. */
  ghost function FilteredUpTo(dict: set<Word>, token: Word, mapping: Mapping, k: nat): set<Word>
    requires k <= |token|
    decreases k
  {
    if k == 0 then PatternBucket(dict, Canon(token))
    else
      var before := FilteredUpTo(dict, token, mapping, k - 1);
      set w | w in before && PassesAt(dict, token, mapping, k - 1, w)
  }

  /** The candidate decryptions of `token` under `mapping`. */
  ghost function Candidates(dict: set<Word>, token: Word, mapping: Mapping): set<Word>
  {
    FilteredUpTo(dict, token, mapping, |token|)
  }

  /** After k positions, the words left are those of the pattern bucket that
      pass the filter at each of the k positions. */
  lemma {:induction false} FilteredMembers(dict: set<Word>, token: Word, mapping: Mapping, k: nat)
    requires k <= |token|
    ensures forall w :: w in FilteredUpTo(dict, token, mapping, k) <==>
      w in PatternBucket(dict, Canon(token)) && forall idx :: 0 <= idx < k ==> PassesAt(dict, token, mapping, idx, w)
    decreases k
  {
    if k > 0 {
      FilteredMembers(dict, token, mapping, k - 1);
    }
  }

  /** `w` holds the image of every mapped byte of `token` at its position. */
  ghost predicate Consistent(token: Word, mapping: Mapping, w: Word)
  {
    |w| == |token| && forall idx :: 0 <= idx < |token| && token[idx] in mapping ==> w[idx] == mapping[token[idx]]
  }

  /** A candidate is a dictionary word of the token's pattern, so of its length. */
  lemma CandidateInBucket(dict: set<Word>, token: Word, mapping: Mapping, w: Word)
    requires w in Candidates(dict, token, mapping)
    ensures w in dict && Canon(w) == Canon(token) && |w| == |token|
  {
    FilteredMembers(dict, token, mapping, |token|);
    CanonAt(w);
    CanonAt(token);
  }

  /** Candidates include every word of the token's pattern bucket consistent
      with the mapping; when every mapped position has its bucket, they are
      exactly those words. */
  lemma CandidatesSpec(dict: set<Word>, token: Word, mapping: Mapping)
    ensures Candidates(dict, token, mapping) <= PatternBucket(dict, Canon(token))
    ensures forall w :: w in PatternBucket(dict, Canon(token)) && Consistent(token, mapping, w) ==>
      w in Candidates(dict, token, mapping)
    ensures (forall idx :: 0 <= idx < |token| && token[idx] in mapping ==>
               PositionBucket(dict, idx, mapping[token[idx]]) != {}) ==>
      forall w :: w in Candidates(dict, token, mapping) ==> Consistent(token, mapping, w)
  {
    FilteredMembers(dict, token, mapping, |token|);
    if forall idx :: 0 <= idx < |token| && token[idx] in mapping ==> PositionBucket(dict, idx, mapping[token[idx]]) != {} {
      forall w | w in Candidates(dict, token, mapping) ensures Consistent(token, mapping, w) {
        CandidateInBucket(dict, token, mapping, w);
        forall idx | 0 <= idx < |token| && token[idx] in mapping ensures w[idx] == mapping[token[idx]] {
          assert PassesAt(dict, token, mapping, idx, w);
        }
      }
    }
  }

  /** A position whose (idx, image) bucket is missing filters nothing. */
  lemma MissingBucketKeepsAll(dict: set<Word>, token: Word, mapping: Mapping, k: nat)
    requires k < |token| && token[k] in mapping
    requires PositionBucket(dict, k, mapping[token[k]]) == {}
    ensures FilteredUpTo(dict, token, mapping, k + 1) == FilteredUpTo(dict, token, mapping, k)
  {
  }

  /** Before any position is filtered, the candidates are the pattern bucket. */
  lemma FilteredNone(dict: set<Word>, token: Word, mapping: Mapping)
    ensures FilteredUpTo(dict, token, mapping, 0) == PatternBucket(dict, Canon(token))
  {
  }

  /** An unmapped position filters nothing. */
  lemma UnmappedKeepsAll(dict: set<Word>, token: Word, mapping: Mapping, k: nat)
    requires k < |token| && token[k] !in mapping
    ensures FilteredUpTo(dict, token, mapping, k + 1) == FilteredUpTo(dict, token, mapping, k)
  {
  }

  /** A mapped position whose bucket exists keeps the candidates in that bucket. */
  lemma MappedIntersects(dict: set<Word>, token: Word, mapping: Mapping, k: nat)
    requires k < |token| && token[k] in mapping
    requires PositionBucket(dict, k, mapping[token[k]]) != {}
    ensures FilteredUpTo(dict, token, mapping, k + 1) ==
      FilteredUpTo(dict, token, mapping, k) * PositionBucket(dict, k, mapping[token[k]])
  {
    var b := PositionBucket(dict, k, mapping[token[k]]);
    FilteredMembers(dict, token, mapping, k + 1);
    forall w | w in FilteredUpTo(dict, token, mapping, k + 1) ensures w in b {
      assert PassesAt(dict, token, mapping, k, w);
    }
  }

  function Min(a: nat, b: nat): nat { if a <= b then a else b }

  /** The pairs `encrypted[i] -> word[i]` for i < n, inserted in order (a later
      insertion of the same key overwrites). */
  function Zip(encrypted: Word, word: Word, n: nat): Mapping
    requires n <= |encrypted| && n <= |word|
  {
    if n == 0 then map[] else Zip(encrypted, word, n - 1)[encrypted[n - 1] := word[n - 1]]
  }

  /** Every key of the zipped pairs comes from a position before n that supplies its value. */
  lemma {:induction false} ZipSource(encrypted: Word, word: Word, n: nat, b: Byte) returns (j: nat)
    requires n <= |encrypted| && n <= |word|
    requires b in Zip(encrypted, word, n)
    ensures j < n && encrypted[j] == b && Zip(encrypted, word, n)[b] == word[j]
  {
    if encrypted[n - 1] == b {
      j := n - 1;
    } else {
      j := ZipSource(encrypted, word, n - 1, b);
    }
  }

  /** The zipped keys are the first n encrypted bytes. */
  lemma {:induction false} ZipKeys(encrypted: Word, word: Word, n: nat)
    requires n <= |encrypted| && n <= |word|
    ensures Zip(encrypted, word, n).Keys == set i | 0 <= i < n :: encrypted[i]
  {
    if n > 0 {
      ZipKeys(encrypted, word, n - 1);
      assert (set i | 0 <= i < n :: encrypted[i]) == (set i | 0 <= i < n - 1 :: encrypted[i]) + {encrypted[n - 1]};
    }
  }

  /** The first n pairs never pair one encrypted byte with two plaintext bytes. */
  ghost predicate ConsistentPairs(encrypted: Word, word: Word, n: nat)
    requires n <= |encrypted| && n <= |word|
  {
    forall i, j :: 0 <= i < n && 0 <= j < n && encrypted[i] == encrypted[j] ==> word[i] == word[j]
  }

  /** None of the first n pairs contradicts an entry the mapping already has. */
  ghost predicate AgreeingPairs(mapping: Mapping, encrypted: Word, word: Word, n: nat)
    requires n <= |encrypted| && n <= |word|
  {
    forall i :: 0 <= i < n && encrypted[i] in mapping ==> mapping[encrypted[i]] == word[i]
  }

  /** The token never pairs one encrypted byte with two plaintext bytes. */
  ghost predicate SelfConsistent(encrypted: Word, word: Word)
  {
    ConsistentPairs(encrypted, word, Min(|encrypted|, |word|))
  }

  /** No pair contradicts an entry the mapping already has. */
  ghost predicate AgreesWith(mapping: Mapping, encrypted: Word, word: Word)
  {
    AgreeingPairs(mapping, encrypted, word, Min(|encrypted|, |word|))
  }

  /** With consistent pairs, every zipped byte maps to the plaintext byte beside it. */
  lemma ZipAt(encrypted: Word, word: Word, n: nat)
    requires n <= |encrypted| && n <= |word|
    requires ConsistentPairs(encrypted, word, n)
    ensures forall i :: 0 <= i < n ==> encrypted[i] in Zip(encrypted, word, n) && Zip(encrypted, word, n)[encrypted[i]] == word[i]
  {
    ZipKeys(encrypted, word, n);
    forall i | 0 <= i < n ensures encrypted[i] in Zip(encrypted, word, n) && Zip(encrypted, word, n)[encrypted[i]] == word[i] {
      assert encrypted[i] in set k | 0 <= k < n :: encrypted[k];
      var j := ZipSource(encrypted, word, n, encrypted[i]);
    }
  }

  /** One more pair keeps the pairs consistent exactly when the zipped pairs so
      far do not already send its encrypted byte elsewhere. */
  lemma ConsistentStep(encrypted: Word, word: Word, i: nat)
    requires i < |encrypted| && i < |word|
    requires ConsistentPairs(encrypted, word, i)
    ensures ConsistentPairs(encrypted, word, i + 1) <==>
      (encrypted[i] !in Zip(encrypted, word, i) || Zip(encrypted, word, i)[encrypted[i]] == word[i])
  {
    ZipAt(encrypted, word, i);
    if encrypted[i] in Zip(encrypted, word, i) {
      var j := ZipSource(encrypted, word, i, encrypted[i]);
      if Zip(encrypted, word, i)[encrypted[i]] != word[i] {
        assert encrypted[j] == encrypted[i] && word[j] != word[i];
      }
    }
  }

  /** A clash among the first k pairs is a clash among the first n >= k. */
  lemma PairsPrefix(mapping: Mapping, encrypted: Word, word: Word, k: nat, n: nat)
    requires k <= n <= |encrypted| && n <= |word|
    ensures ConsistentPairs(encrypted, word, n) ==> ConsistentPairs(encrypted, word, k)
    ensures AgreeingPairs(mapping, encrypted, word, n) ==> AgreeingPairs(mapping, encrypted, word, k)
  {
  }

  /** `try_extend_mapping`: zip the token with the candidate, reject a pair that
      clashes with an earlier pair or with the mapping, merge (the pairs in
      front, the mapping's entries behind them), and reject a merged map with
      fewer distinct values than keys. */
  ghost function Extend(mapping: Mapping, encrypted: Word, word: Word): Option<Mapping>
  {
    if !SelfConsistent(encrypted, word) || !AgreesWith(mapping, encrypted, word) then None
    else
      var merged := mapping + Zip(encrypted, word, Min(|encrypted|, |word|));
      if |merged.Values| != |merged| then None else Some(merged)
  }

  /** Extension fails in exactly three cases: an encrypted byte pairs with two
      plaintext bytes, an encrypted byte is already mapped elsewhere, or the
      merged map is not injective. */
  lemma ExtendNone(mapping: Mapping, encrypted: Word, word: Word)
    ensures Extend(mapping, encrypted, word).None? <==>
      !SelfConsistent(encrypted, word) || !AgreesWith(mapping, encrypted, word) ||
      !Injective(mapping + Zip(encrypted, word, Min(|encrypted|, |word|)))
  {
    if SelfConsistent(encrypted, word) && AgreesWith(mapping, encrypted, word) {
      InjectiveIffValuesCard(mapping + Zip(encrypted, word, Min(|encrypted|, |word|)));
    }
  }

  /** A successful extension keeps every existing entry, maps `encrypted[i]` to
      `word[i]` for every zipped position, adds no other key, and is injective. */
  lemma ExtendSome(mapping: Mapping, encrypted: Word, word: Word)
    requires Extend(mapping, encrypted, word).Some?
    ensures var r := Extend(mapping, encrypted, word).value;
      && Extends(mapping, r)
      && (forall i :: 0 <= i < Min(|encrypted|, |word|) ==> encrypted[i] in r && r[encrypted[i]] == word[i])
      && r.Keys == mapping.Keys + (set i | 0 <= i < Min(|encrypted|, |word|) :: encrypted[i])
      && Injective(r)
  {
    var n := Min(|encrypted|, |word|);
    var z := Zip(encrypted, word, n);
    var r := mapping + z;
    ZipAt(encrypted, word, n);
    ZipKeys(encrypted, word, n);
    InjectiveIffValuesCard(r);
    forall b | b in mapping ensures b in r && r[b] == mapping[b] {
      if b in z {
        var j := ZipSource(encrypted, word, n, b);
      }
    }
  }

  /** The mapping `m` is a solution reached from `start` for `tokens` over `dict`:
      it keeps `start`, its domain is `start`'s plus every byte of the tokens,
      it decodes every token to a dictionary word, and (when any token was
      resolved) it is injective. */
  ghost predicate Solves(dict: set<Word>, start: Mapping, tokens: seq<Word>, m: Mapping)
  {
    && Extends(start, m)
    && m.Keys == start.Keys + TokenBytes(tokens)
    && (forall t :: t in tokens ==> Render(t, m) in dict)
    && (tokens != [] ==> Injective(m))
  }

  /** The tokens without the one at position k. */
  function Without(tokens: seq<Word>, k: nat): seq<Word>
    requires k < |tokens|
  {
    tokens[..k] + tokens[k + 1..]
  }

  lemma WithoutSpec(tokens: seq<Word>, k: nat)
    requires k < |tokens|
    ensures |Without(tokens, k)| == |tokens| - 1
    ensures forall t :: t in tokens <==> t == tokens[k] || t in Without(tokens, k)
    ensures TokenBytes(tokens) == TokenBytes(Without(tokens, k)) + Elems(tokens[k])
  {
    var rest := Without(tokens, k);
    forall t | t in tokens ensures t == tokens[k] || t in rest {
      var i :| 0 <= i < |tokens| && tokens[i] == t;
      if i < k { assert rest[i] == t; } else if i > k { assert rest[i - 1] == t; }
    }
    forall b | b in TokenBytes(tokens) ensures b in TokenBytes(rest) + Elems(tokens[k]) {
      var t, i :| t in tokens && 0 <= i < |t| && t[i] == b;
      if t != tokens[k] { assert t in rest; }
    }
  }

  /** With no tokens left, the start mapping is the only solution. */
  lemma NoTokensSolution(dict: set<Word>, start: Mapping, m: Mapping)
    ensures Solves(dict, start, [], m) <==> m == start
  {
    assert TokenBytes([]) == {};
  }

  /** An injective mapping decodes a token to a word of the same pattern. */
  lemma InjectiveRenderKeepsPattern(t: Word, m: Mapping)
    requires Injective(m)
    requires forall i :: 0 <= i < |t| ==> t[i] in m
    ensures Canon(Render(t, m)) == Canon(t)
  {
    SamePatternIff(Render(t, m), t);
  }

  lemma ExtendsTransitive(a: Mapping, b: Mapping, c: Mapping)
    requires Extends(a, b) && Extends(b, c)
    ensures Extends(a, c)
  {
  }

  /** A mapping that takes every byte of `t` to the byte `w` holds beside it
      renders `t` as `w`, and so does every larger mapping. */
  lemma RenderThrough(t: Word, w: Word, small: Mapping, big: Mapping)
    requires |w| == |t| && Extends(small, big)
    requires forall i :: 0 <= i < |t| ==> t[i] in small && small[t[i]] == w[i]
    ensures Render(t, big) == w
  {
  }

  /** Decoding with a mapping that covers the token pairs bytes consistently,
      and agrees with every mapping it extends. */
  lemma RenderPairs(t: Word, start: Mapping, m: Mapping)
    requires Extends(start, m)
    requires forall i :: 0 <= i < |t| ==> t[i] in m
    ensures SelfConsistent(t, Render(t, m)) && AgreesWith(start, t, Render(t, m))
    ensures Consistent(t, start, Render(t, m))
  {
  }

  /** The domain after one step: the start's keys, the token's bytes, and the
      bytes of the remaining tokens make up the start's keys plus all the tokens' bytes. */
  lemma StepKeys(start: Mapping, merged: Mapping, tokens: seq<Word>, k: nat)
    requires k < |tokens|
    requires merged.Keys == start.Keys + Elems(tokens[k])
    ensures merged.Keys + TokenBytes(Without(tokens, k)) == start.Keys + TokenBytes(tokens)
  {
    WithoutSpec(tokens, k);
  }

  /** A solution decodes each of its tokens to a dictionary word. */
  lemma SolvesDecodes(dict: set<Word>, start: Mapping, tokens: seq<Word>, m: Mapping, t: Word)
    requires Solves(dict, start, tokens, m) && t in tokens
    ensures Render(t, m) in dict
    ensures forall i :: 0 <= i < |t| ==> t[i] in m
  {
    forall i | 0 <= i < |t| ensures t[i] in m {
      assert t[i] in TokenBytes(tokens);
    }
  }

  /** Soundness of one search step: a solution for the remaining tokens, reached
      from the extension of `start` by a candidate `w` of token k, is a solution
      for all the tokens that decodes token k to `w`. */
  lemma SoundStep(dict: set<Word>, start: Mapping, tokens: seq<Word>, k: nat, w: Word, m: Mapping)
    requires k < |tokens|
    requires w in Candidates(dict, tokens[k], start)
    requires Extend(start, tokens[k], w).Some?
    requires Solves(dict, Extend(start, tokens[k], w).value, Without(tokens, k), m)
    ensures Solves(dict, start, tokens, m)
    ensures Render(tokens[k], m) == w
  {
    var t := tokens[k];
    var merged := Extend(start, t, w).value;
    var rest := Without(tokens, k);
    CandidateInBucket(dict, t, start, w);
    ExtendSome(start, t, w);
    assert Min(|t|, |w|) == |t|;
    assert merged.Keys == start.Keys + Elems(t);
    RenderThrough(t, w, merged, m);
    ExtendsTransitive(start, merged, m);
    StepKeys(start, merged, tokens, k);
    WithoutSpec(tokens, k);
    assert forall u :: u in tokens ==> Render(u, m) in dict;
    if rest == [] {
      NoTokensSolution(dict, merged, m);
    }
  }

  /** A solution decodes each token to one of its candidates. */
  lemma RenderIsCandidate(dict: set<Word>, start: Mapping, tokens: seq<Word>, k: nat, m: Mapping)
    requires k < |tokens|
    requires Solves(dict, start, tokens, m)
    ensures Render(tokens[k], m) in Candidates(dict, tokens[k], start)
  {
    var t := tokens[k];
    SolvesDecodes(dict, start, tokens, m, t);
    InjectiveRenderKeepsPattern(t, m);
    RenderPairs(t, start, m);
    CandidatesSpec(dict, t, start);
    assert Render(t, m) in PatternBucket(dict, Canon(t));
  }

  /** Merging the pairs of a token and its decoding under `m` into `start`
      stays inside `m` and covers the token's bytes. */
  lemma DecodingMerge(start: Mapping, t: Word, m: Mapping)
    requires Extends(start, m)
    requires forall i :: 0 <= i < |t| ==> t[i] in m
    ensures var merged := start + Zip(t, Render(t, m), |t|);
      Extends(merged, m) && merged.Keys == start.Keys + Elems(t)
  {
    var w := Render(t, m);
    var n := |t|;
    var z := Zip(t, w, n);
    ZipKeys(t, w, n);
    var merged := start + z;
    forall b | b in merged ensures b in m && m[b] == merged[b] {
      if b in z {
        var j := ZipSource(t, w, n, b);
      }
    }
  }

  /** Extending `start` by the decoding of a token under an injective `m`
      that extends it succeeds, with the merged map. */
  lemma DecodingExtends(start: Mapping, t: Word, m: Mapping)
    requires Extends(start, m) && Injective(m)
    requires forall i :: 0 <= i < |t| ==> t[i] in m
    ensures Extend(start, t, Render(t, m)) == Some(start + Zip(t, Render(t, m), |t|))
  {
    var w := Render(t, m);
    var merged := start + Zip(t, w, |t|);
    RenderPairs(t, start, m);
    DecodingMerge(start, t, m);
    ExtendsKeepsInjective(merged, m);
    InjectiveIffValuesCard(merged);
    assert Min(|t|, |w|) == |t|;
  }

  /** A solution for all the tokens is also one for the remaining tokens from
      the extension of `start` by the word it decodes token k to. */
  lemma ExtendByDecoding(dict: set<Word>, start: Mapping, tokens: seq<Word>, k: nat, m: Mapping)
    requires k < |tokens|
    requires Solves(dict, start, tokens, m)
    ensures var w := Render(tokens[k], m);
      && Extend(start, tokens[k], w).Some?
      && Solves(dict, Extend(start, tokens[k], w).value, Without(tokens, k), m)
  {
    var t := tokens[k];
    SolvesDecodes(dict, start, tokens, m, t);
    DecodingExtends(start, t, m);
    DecodingMerge(start, t, m);
    StepKeys(start, start + Zip(t, Render(t, m), |t|), tokens, k);
    WithoutSpec(tokens, k);
  }

  /** Completeness of one search step: any solution for all the tokens decodes
      token k to a candidate, extending `start` by that candidate succeeds, and
      the solution is also one for the remaining tokens from that extension. */
  lemma CompleteStep(dict: set<Word>, start: Mapping, tokens: seq<Word>, k: nat, m: Mapping)
    requires k < |tokens|
    requires Solves(dict, start, tokens, m)
    ensures var w := Render(tokens[k], m);
      && w in Candidates(dict, tokens[k], start)
      && Extend(start, tokens[k], w).Some?
      && Solves(dict, Extend(start, tokens[k], w).value, Without(tokens, k), m)
  {
    RenderIsCandidate(dict, start, tokens, k, m);
    ExtendByDecoding(dict, start, tokens, k, m);
  }

  /** Two solutions for the tokens of a phrase that render the phrase alike
      are the same mapping: both have the tokens' bytes as their keys, and
      each of those bytes occurs in the phrase. */
  lemma SolutionsRenderApart(dict: set<Word>, phrase: seq<Byte>, m1: Mapping, m2: Mapping)
    requires Solves(dict, map[], Tokens(phrase), m1) && Solves(dict, map[], Tokens(phrase), m2)
    requires Render(phrase, m1) == Render(phrase, m2)
    ensures m1 == m2
  {
    TokenBytesInPhrase(phrase);
    assert m1.Keys == m2.Keys;
    forall x | x in m1 ensures m1[x] == m2[x] {
      var i :| 0 <= i < |phrase| && phrase[i] == x;
      RenderAt(phrase, m1, i);
      RenderAt(phrase, m2, i);
    }
  }

  /** Rendering distinct solutions for a phrase's tokens, each read as
      characters, gives distinct strings. */
  lemma DecodingsDistinct(dict: set<Word>, phrase: seq<Byte>, mappings: seq<Mapping>, decoded: seq<string>)
    requires forall m :: m in mappings ==> Solves(dict, map[], Tokens(phrase), m)
    requires forall i, j :: 0 <= i < j < |mappings| ==> mappings[i] != mappings[j]
    requires |decoded| == |mappings|
    requires forall i :: 0 <= i < |mappings| ==> decoded[i] == ToChars(Render(phrase, mappings[i]))
    ensures forall i, j :: 0 <= i < j < |decoded| ==> decoded[i] != decoded[j]
  {
    forall i, j | 0 <= i < j < |decoded| ensures decoded[i] != decoded[j] {
      if decoded[i] == decoded[j] {
        ToCharsInjective(Render(phrase, mappings[i]), Render(phrase, mappings[j]));
        SolutionsRenderApart(dict, phrase, mappings[i], mappings[j]);
      }
    }
  }

  /** Whether a mapping solves a token list depends only on which tokens it
      holds, not on their order or repeats. */
  lemma SolvesSameTokens(dict: set<Word>, start: Mapping, a: seq<Word>, b: seq<Word>, m: Mapping)
    requires forall t :: t in a <==> t in b
    ensures Solves(dict, start, a, m) <==> Solves(dict, start, b, m)
  {
    assert TokenBytes(a) == TokenBytes(b);
    if a != [] { assert a[0] in b; }
    if b != [] { assert b[0] in a; }
  }

  /** The extensions of `start` by the candidates of token k that succeed,
      keyed by the candidate. */
  ghost predicate StepMappings(dict: set<Word>, start: Mapping, token: Word, cm: map<Word, Mapping>)
  {
    && (forall w :: w in cm <==> w in Candidates(dict, token, start) && Extend(start, token, w).Some?)
    && (forall w :: w in cm ==> Some(cm[w]) == Extend(start, token, w))
  }

  /** Collecting the solutions reached through one candidate: exactly the
      solutions for all the tokens that decode token k to that candidate. */
  lemma CollectStep(dict: set<Word>, start: Mapping, tokens: seq<Word>, k: nat,
                    cm: map<Word, Mapping>, w: Word, found: seq<Mapping>)
    requires k < |tokens|
    requires StepMappings(dict, start, tokens[k], cm)
    requires w in cm
    requires forall m :: m in found ==> Solves(dict, cm[w], Without(tokens, k), m)
    requires forall m :: Solves(dict, cm[w], Without(tokens, k), m) ==> m in found
    ensures forall m :: m in found ==> Solves(dict, start, tokens, m) && Render(tokens[k], m) == w
    ensures forall m :: Solves(dict, start, tokens, m) && Render(tokens[k], m) == w ==> m in found
  {
    forall m | m in found ensures Solves(dict, start, tokens, m) && Render(tokens[k], m) == w {
      SoundStep(dict, start, tokens, k, w, m);
    }
    forall m | Solves(dict, start, tokens, m) && Render(tokens[k], m) == w ensures m in found {
      CompleteStep(dict, start, tokens, k, m);
    }
  }

  /** Two lists without repeats and without a common element concatenate to
      a list without repeats. */
  lemma ConcatDistinct<T>(a: seq<T>, b: seq<T>)
    requires forall i, j :: 0 <= i < j < |a| ==> a[i] != a[j]
    requires forall i, j :: 0 <= i < j < |b| ==> b[i] != b[j]
    requires forall x :: x in a ==> x !in b
    ensures forall i, j :: 0 <= i < j < |a + b| ==> (a + b)[i] != (a + b)[j]
  {
    forall i, j | 0 <= i < j < |a + b| ensures (a + b)[i] != (a + b)[j] {
      if i < |a| && j >= |a| {
        assert (a + b)[i] in a && (a + b)[j] == b[j - |a|];
      }
    }
  }

  /** The mappings collected after visiting the candidates in `done`: no
      repeats, and exactly the solutions that decode token k to one of them. */
  ghost predicate Collected(dict: set<Word>, start: Mapping, tokens: seq<Word>, k: nat,
                            done: set<Word>, solutions: seq<Mapping>)
    requires k < |tokens|
  {
    && (forall m :: m in solutions ==> Solves(dict, start, tokens, m) && Render(tokens[k], m) in done)
    && (forall m :: Solves(dict, start, tokens, m) && Render(tokens[k], m) in done ==> m in solutions)
    && (forall i, j :: 0 <= i < j < |solutions| ==> solutions[i] != solutions[j])
  }

  /** Visiting one more candidate and appending what the recursion found for
      it keeps the collection exact. */
  lemma CollectMore(dict: set<Word>, start: Mapping, tokens: seq<Word>, k: nat, cm: map<Word, Mapping>,
                    done: set<Word>, solutions: seq<Mapping>, w: Word, found: seq<Mapping>)
    requires k < |tokens|
    requires StepMappings(dict, start, tokens[k], cm)
    requires w in cm && w !in done
    requires Collected(dict, start, tokens, k, done, solutions)
    requires forall m :: m in found ==> Solves(dict, cm[w], Without(tokens, k), m)
    requires forall m :: Solves(dict, cm[w], Without(tokens, k), m) ==> m in found
    requires forall i, j :: 0 <= i < j < |found| ==> found[i] != found[j]
    ensures Collected(dict, start, tokens, k, done + {w}, solutions + found)
  {
    CollectStep(dict, start, tokens, k, cm, w, found);
    ConcatDistinct(solutions, found);
  }

  /** Once every candidate is visited, the collection holds exactly the
      solutions, none twice. */
  lemma CollectedAll(dict: set<Word>, start: Mapping, tokens: seq<Word>, k: nat, cm: map<Word, Mapping>,
                     solutions: seq<Mapping>)
    requires k < |tokens|
    requires StepMappings(dict, start, tokens[k], cm)
    requires Collected(dict, start, tokens, k, cm.Keys, solutions)
    ensures forall m :: m in solutions ==> Solves(dict, start, tokens, m)
    ensures forall m :: Solves(dict, start, tokens, m) ==> m in solutions
    ensures forall i, j :: 0 <= i < j < |solutions| ==> solutions[i] != solutions[j]
  {
    StepCovers(dict, start, tokens, k, cm);
  }

  /** Every solution for all the tokens goes through one of the step's candidates. */
  lemma StepCovers(dict: set<Word>, start: Mapping, tokens: seq<Word>, k: nat, cm: map<Word, Mapping>)
    requires k < |tokens|
    requires StepMappings(dict, start, tokens[k], cm)
    ensures forall m :: Solves(dict, start, tokens, m) ==> Render(tokens[k], m) in cm
  {
    forall m | Solves(dict, start, tokens, m) ensures Render(tokens[k], m) in cm {
      CompleteStep(dict, start, tokens, k, m);
    }
  }

  /** A solution extends its start and decodes every token to a dictionary
      word of the token's own pattern. */
  lemma SolutionKeepsPatterns(dict: set<Word>, start: Mapping, tokens: seq<Word>, m: Mapping)
    requires Solves(dict, start, tokens, m)
    ensures Extends(start, m)
    ensures forall t :: t in tokens ==> Render(t, m) in dict && Canon(Render(t, m)) == Canon(t)
  {
    forall t | t in tokens ensures Render(t, m) in dict && Canon(Render(t, m)) == Canon(t) {
      SolvesDecodes(dict, start, tokens, m, t);
      InjectiveRenderKeepsPattern(t, m);
    }
  }
}
