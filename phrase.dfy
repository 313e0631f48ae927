/** The phrase side of the solver: validating and lowercasing the input
    (`Phrase::from_str`), splitting it into encrypted tokens and removing
    duplicates (`solve`), and rendering a mapping over it (`solve`). */
module Phrases {
  import opened Bytes
  import opened Options
  import opened Mappings

  /** `Phrase::from_str`: `None` unless every byte is ASCII, otherwise the
      input lowercased. */
  function FromStr(s: seq<Byte>): (r: Option<seq<Byte>>)
    ensures r.Some? <==> IsAscii(s)
    ensures r.Some? ==> |r.value| == |s| && IsAscii(r.value)
  {
    if IsAscii(s) then Some(seq(|s|, i requires 0 <= i < |s| => ToAsciiLower(s[i]))) else None
  }

  /** The validator rejects exactly the inputs holding a non-ASCII byte, and
      otherwise keeps the length and lowercases byte by byte. */
  lemma FromStrSpec(s: seq<Byte>)
    ensures FromStr(s).None? <==> exists i :: 0 <= i < |s| && s[i] >= 128
    ensures FromStr(s).Some? ==>
      |FromStr(s).value| == |s| &&
      (forall i :: 0 <= i < |s| ==> FromStr(s).value[i] == ToAsciiLower(s[i]))
  {
  }

  /** A phrase is lowercase ASCII, so validating it again changes nothing. */
  lemma FromStrIdempotent(s: seq<Byte>)
    requires FromStr(s).Some?
    ensures IsAscii(FromStr(s).value)
    ensures forall i :: 0 <= i < |s| ==> !IsAsciiUpper(FromStr(s).value[i])
    ensures FromStr(FromStr(s).value) == FromStr(s)
  {
    var p := FromStr(s).value;
    assert FromStr(p).value == p;
  }

  /** Length of the leading run of non-whitespace bytes. */
  function RunLength(s: seq<Byte>): (n: nat)
    ensures n <= |s|
    ensures forall i :: 0 <= i < n ==> !IsWhitespace(s[i])
    ensures n < |s| ==> IsWhitespace(s[n])
  {
    if s == [] || IsWhitespace(s[0]) then 0 else 1 + RunLength(s[1..])
  }

  /** `str::split_whitespace` on an ASCII phrase: the maximal runs of
      non-whitespace bytes, in order. */
  function Tokens(s: seq<Byte>): (r: seq<Word>)
    ensures forall t :: t in r ==> t != [] && |t| <= |s|
    decreases |s|
  {
    if s == [] then []
    else if IsWhitespace(s[0]) then Tokens(s[1..])
    else
      var n := RunLength(s);
      [s[..n]] + Tokens(s[n..])
  }

  /** Every byte value that occurs in some token. */
  ghost function TokenBytes(tokens: seq<Word>): set<Byte>
  {
    set t, i | t in tokens && 0 <= i < |t| :: t[i]
  }

  /** Tokens are non-empty and hold no whitespace; every non-whitespace byte of
      the phrase occurs in some token. */
  lemma {:induction false} TokensSpec(s: seq<Byte>)
    ensures forall t :: t in Tokens(s) ==> t != [] && forall i :: 0 <= i < |t| ==> !IsWhitespace(t[i])
    ensures forall i :: 0 <= i < |s| && !IsWhitespace(s[i]) ==> s[i] in TokenBytes(Tokens(s))
    decreases |s|
  {
    if s != [] {
      if IsWhitespace(s[0]) {
        TokensSpec(s[1..]);
        assert Tokens(s) == Tokens(s[1..]);
        forall i | 0 <= i < |s| && !IsWhitespace(s[i]) ensures s[i] in TokenBytes(Tokens(s)) {
          assert s[1..][i - 1] == s[i];
        }
      } else {
        var n := RunLength(s);
        var tail := Tokens(s[n..]);
        TokensSpec(s[n..]);
        assert Tokens(s) == [s[..n]] + tail;
        forall i | 0 <= i < |s| && !IsWhitespace(s[i]) ensures s[i] in TokenBytes(Tokens(s)) {
          if i < n {
            assert s[..n][i] == s[i];
            assert s[..n] in Tokens(s);
          } else {
            assert s[n..][i - n] == s[i];
            var t, k :| t in tail && 0 <= k < |t| && t[k] == s[i];
            assert t in Tokens(s);
          }
        }
      }
    }
  }

  /** `s[a..b]` is a maximal run of non-whitespace bytes: non-empty, holding
      no whitespace, and bounded by whitespace or the ends of `s`. These are
      exactly the substrings `str::split_whitespace` yields. */
  ghost predicate IsRun(s: seq<Byte>, a: int, b: int)
  {
    && 0 <= a < b <= |s|
    && (forall i :: a <= i < b ==> !IsWhitespace(s[i]))
    && (a == 0 || IsWhitespace(s[a - 1]))
    && (b == |s| || IsWhitespace(s[b]))
  }

  /** Cutting `s` at a position `d` that no run crosses moves every run by `d`. */
  lemma RunShift(s: seq<Byte>, d: nat, a: nat, b: nat)
    requires d <= |s|
    requires d == 0 || IsWhitespace(s[d - 1]) || d == |s| || IsWhitespace(s[d])
    ensures IsRun(s[d..], a, b) <==> IsRun(s, a + d, b + d)
    ensures IsRun(s[d..], a, b) ==> s[d..][a..b] == s[a + d..b + d]
  {
    if IsRun(s, a + d, b + d) {
      assert !IsWhitespace(s[a + d]);
      forall i | a <= i < b ensures !IsWhitespace(s[d..][i]) {
        assert s[d..][i] == s[i + d];
      }
    }
    if IsRun(s[d..], a, b) {
      forall i | a + d <= i < b + d ensures !IsWhitespace(s[i]) {
        assert s[i] == s[d..][i - d];
      }
      if a > 0 { assert s[d..][a - 1] == s[a + d - 1]; }
      if b < |s| - d { assert s[d..][b] == s[b + d]; }
      assert s[d..][a] == s[a + d];
    }
  }

  /** The tokens of `s` are exactly its maximal non-whitespace runs. */
  ghost predicate TokensAreRunsOf(s: seq<Byte>)
  {
    forall t :: t in Tokens(s) <==> exists a, b :: IsRun(s, a, b) && t == s[a..b]
  }

  /** The tokens are exactly the maximal non-whitespace runs of the phrase. */
  lemma {:induction false} TokensAreRuns(s: seq<Byte>)
    ensures forall t :: t in Tokens(s) <==> exists a, b :: IsRun(s, a, b) && t == s[a..b]
    decreases |s|
  {
    if s == [] {
    } else if IsWhitespace(s[0]) {
      TokensAreRuns(s[1..]);
      RunsAfterWhitespace(s);
    } else {
      TokensAreRuns(s[RunLength(s)..]);
      RunsAfterFirstRun(s);
    }
  }

  /** A leading whitespace byte starts no run, so dropping it keeps the runs. */
  lemma RunsAfterWhitespace(s: seq<Byte>)
    requires s != [] && IsWhitespace(s[0])
    requires TokensAreRunsOf(s[1..])
    ensures TokensAreRunsOf(s)
  {
    var rest := s[1..];
    assert Tokens(s) == Tokens(rest);
    forall t | t in Tokens(s) ensures exists a, b :: IsRun(s, a, b) && t == s[a..b] {
      var a: nat, b: nat :| IsRun(rest, a, b) && t == rest[a..b];
      RunShift(s, 1, a, b);
    }
    forall t | (exists a, b :: IsRun(s, a, b) && t == s[a..b]) ensures t in Tokens(s) {
      var a, b :| IsRun(s, a, b) && t == s[a..b];
      assert !IsWhitespace(s[a]);
      RunShift(s, 1, a - 1, b - 1);
    }
  }

  /** The first token is the leading run; the others are the runs after it. */
  lemma RunsAfterFirstRun(s: seq<Byte>)
    requires s != [] && !IsWhitespace(s[0])
    requires TokensAreRunsOf(s[RunLength(s)..])
    ensures TokensAreRunsOf(s)
  {
    TokenIsRun(s);
    RunIsToken(s);
  }

  /** Each token after a leading run is a run of the whole phrase. */
  lemma TokenIsRun(s: seq<Byte>)
    requires s != [] && !IsWhitespace(s[0])
    requires TokensAreRunsOf(s[RunLength(s)..])
    ensures forall t :: t in Tokens(s) ==> exists a, b :: IsRun(s, a, b) && t == s[a..b]
  {
    var n := RunLength(s);
    var rest := s[n..];
    assert Tokens(s) == [s[..n]] + Tokens(rest);
    assert IsRun(s, 0, n);
    forall t | t in Tokens(s) ensures exists a, b :: IsRun(s, a, b) && t == s[a..b] {
      if t == s[..n] {
        assert s[0..n] == t;
      } else {
        assert t in Tokens(rest);
        var a: nat, b: nat :| IsRun(rest, a, b) && t == rest[a..b];
        RunShift(s, n, a, b);
      }
    }
  }

  /** Each run of a phrase that starts with a run is one of its tokens. */
  lemma RunIsToken(s: seq<Byte>)
    requires s != [] && !IsWhitespace(s[0])
    requires TokensAreRunsOf(s[RunLength(s)..])
    ensures forall t :: (exists a, b :: IsRun(s, a, b) && t == s[a..b]) ==> t in Tokens(s)
  {
    var n := RunLength(s);
    var rest := s[n..];
    assert Tokens(s) == [s[..n]] + Tokens(rest);
    forall t | (exists a, b :: IsRun(s, a, b) && t == s[a..b]) ensures t in Tokens(s) {
      var a, b :| IsRun(s, a, b) && t == s[a..b];
      if a == 0 {
        assert n < |s| ==> IsWhitespace(s[n]);
        assert b < |s| ==> IsWhitespace(s[b]);
        assert b == n;
        assert t == s[..n];
      } else {
        assert IsWhitespace(s[a - 1]);
        assert a >= n;
        RunShift(s, n, a - n, b - n);
      }
    }
  }

  /** Every byte of every token occurs in the phrase. */
  lemma TokenBytesInPhrase(s: seq<Byte>)
    ensures forall x :: x in TokenBytes(Tokens(s)) ==> exists i :: 0 <= i < |s| && s[i] == x
  {
    TokensAreRuns(s);
    forall x | x in TokenBytes(Tokens(s)) ensures exists i :: 0 <= i < |s| && s[i] == x {
      var t, j :| t in Tokens(s) && 0 <= j < |t| && t[j] == x;
      var a, b :| IsRun(s, a, b) && t == s[a..b];
      assert s[a + j] == x;
    }
  }

  /** No byte of a token is whitespace. */
  lemma TokenBytesNotWhitespace(s: seq<Byte>)
    ensures forall b :: b in TokenBytes(Tokens(s)) ==> !IsWhitespace(b)
  {
    TokensSpec(s);
  }

  /** The tokens with repeats removed, each kept at its first occurrence
      (the phrase's tokens collected into a set, then into a vector). */
  function Dedup(tokens: seq<Word>): (r: seq<Word>)
    ensures forall t :: t in r <==> t in tokens
    ensures forall i, j :: 0 <= i < j < |r| ==> r[i] != r[j]
    decreases |tokens|
  {
    if tokens == [] then []
    else
      var r := Dedup(tokens[..|tokens| - 1]);
      var t := tokens[|tokens| - 1];
      assert tokens == tokens[..|tokens| - 1] + [t];
      if t in r then r else r + [t]
  }

  /** Rendering: every byte the mapping knows is replaced by its image, every
      other byte (whitespace included) passes through. */
  function Render(phrase: seq<Byte>, m: Mapping): (r: seq<Byte>)
    ensures |r| == |phrase|
  {
    seq(|phrase|, i requires 0 <= i < |phrase| => if phrase[i] in m then m[phrase[i]] else phrase[i])
  }

  /** The bytes read as characters, one `u8 as char` each: byte b becomes the
      character with code point b, so bytes 0x80..0xFF become U+0080..U+00FF. */
  function ToChars(s: seq<Byte>): (r: string)
    ensures |r| == |s|
    ensures forall i :: 0 <= i < |s| ==> r[i] as int == s[i]
  {
    seq(|s|, i requires 0 <= i < |s| => s[i] as char)
  }

  /** Reading bytes as characters loses nothing: equal character strings
      come from equal byte strings. */
  lemma ToCharsInjective(x: seq<Byte>, y: seq<Byte>)
    requires ToChars(x) == ToChars(y)
    ensures x == y
  {
    assert |x| == |y|;
    forall i | 0 <= i < |x| ensures x[i] == y[i] {
      assert ToChars(x)[i] == ToChars(y)[i];
    }
  }

  /** A byte outside the mapping's domain is left unchanged at every position;
      a byte inside it becomes its image. */
  lemma RenderAt(phrase: seq<Byte>, m: Mapping, i: nat)
    requires i < |phrase|
    ensures phrase[i] !in m ==> Render(phrase, m)[i] == phrase[i]
    ensures phrase[i] in m ==> Render(phrase, m)[i] == m[phrase[i]]
  {
  }
}
