/** `Pattern::from_str`: a word's repeated-letter fingerprint. Each byte is
    replaced by the order in which its value was first seen, so "book" becomes
    [0, 1, 1, 2]. */
module Patterns {
  import opened Bytes
  import opened Mappings

  type Pattern = seq<nat>

  /** The distinct byte values of `s`. */
  ghost function Elems(s: seq<Byte>): set<Byte>
  {
    set i | 0 <= i < |s| :: s[i]
  }

  /** The symbol table (`symbol_map`) after scanning all of `s`: a byte seen for
      the first time gets the next unused symbol, which is the table's size. */
  function Table(s: seq<Byte>): map<Byte, nat>
    decreases |s|
  {
    if s == [] then map[]
    else
      var t := Table(s[..|s| - 1]);
      var b := s[|s| - 1];
      if b in t then t else t[b := |t|]
  }

  /** The pattern of `s`: the symbol of every byte, in order. */
  function Canon(s: seq<Byte>): Pattern
    decreases |s|
  {
    if s == [] then [] else Canon(s[..|s| - 1]) + [Table(s)[s[|s| - 1]]]
  }

  /** The table holds exactly the bytes of `s`, with distinct symbols below its size. */
  lemma {:induction false} TableShape(s: seq<Byte>)
    ensures Table(s).Keys == Elems(s)
    ensures forall b :: b in Table(s) ==> Table(s)[b] < |Table(s)|
    ensures Injective(Table(s))
    decreases |s|
  {
    if s != [] {
      TableShape(s[..|s| - 1]);
      ElemsSnoc(s);
    }
  }

  /** The bytes of a non-empty sequence: those before the last, and the last. */
  lemma ElemsSnoc(s: seq<Byte>)
    requires s != []
    ensures Elems(s) == Elems(s[..|s| - 1]) + {s[|s| - 1]}
  {
    var p := s[..|s| - 1];
    forall b | b in Elems(s) ensures b in Elems(p) + {s[|s| - 1]} {
      var i :| 0 <= i < |s| && s[i] == b;
      if i < |s| - 1 { assert p[i] == b; }
    }
    forall b | b in Elems(p) ensures b in Elems(s) {
      var i :| 0 <= i < |p| && p[i] == b;
      assert s[i] == b;
    }
  }

  /** Scanning further never changes a symbol already handed out. */
  lemma {:induction false} TableGrows(s: seq<Byte>, k: nat)
    requires k <= |s|
    ensures Extends(Table(s[..k]), Table(s))
    decreases |s| - k
  {
    if k < |s| {
      TableGrows(s, k + 1);
      var p := s[..k + 1];
      assert p[..|p| - 1] == s[..k];
    } else {
      assert s[..k] == s;
    }
  }

  /** The pattern has one symbol per byte, and position i holds the table's symbol for s[i]. */
  lemma {:induction false} CanonAt(s: seq<Byte>)
    ensures |Canon(s)| == |s|
    ensures forall i :: 0 <= i < |s| ==> s[i] in Table(s) && Canon(s)[i] == Table(s)[s[i]]
    decreases |s|
  {
    if s != [] {
      var p := s[..|s| - 1];
      CanonAt(p);
      TableGrows(s, |s| - 1);
      TableShape(s);
      forall i | 0 <= i < |s| ensures s[i] in Table(s) && Canon(s)[i] == Table(s)[s[i]] {
        if i < |s| - 1 {
          assert p[i] == s[i];
        }
      }
    }
  }

  /** Positions i and j carry equal symbols exactly when they carry equal bytes. */
  lemma CanonEqualIff(s: seq<Byte>, i: nat, j: nat)
    requires i < |s| && j < |s|
    ensures |Canon(s)| == |s|
    ensures Canon(s)[i] == Canon(s)[j] <==> s[i] == s[j]
  {
    CanonAt(s);
    TableShape(s);
  }

  /** A byte seen for the first time gets as its symbol the number of distinct
      bytes before it (so the first symbol is 0); a repeated byte gets the symbol
      of its first occurrence. */
  lemma FirstOccurrence(s: seq<Byte>, i: nat)
    requires i < |s|
    ensures |Canon(s)| == |s|
    ensures s[i] !in s[..i] ==> Canon(s)[i] == |Elems(s[..i])|
    ensures forall j :: 0 <= j < i && s[j] == s[i] ==> Canon(s)[i] == Canon(s)[j]
  {
    CanonAt(s);
    CanonAt(s[..i + 1]);
    TableShape(s[..i]);
    TableGrows(s, i + 1);
    var q := s[..i + 1];
    assert q[..|q| - 1] == s[..i];
    if s[i] !in s[..i] {
      assert s[i] !in Elems(s[..i]);
      assert Table(q)[s[i]] == |Table(s[..i])|;
      assert |Table(s[..i]).Keys| == |Elems(s[..i])|;
    }
    forall j | 0 <= j < i && s[j] == s[i] ensures Canon(s)[i] == Canon(s)[j] { }
  }

  /** The byte values of a pattern are the symbols the table hands out. */
  lemma CanonValues(s: seq<Byte>)
    ensures (set i | 0 <= i < |Canon(s)| :: Canon(s)[i]) == Table(s).Values
  {
    CanonAt(s);
    TableShape(s);
    var c := Canon(s);
    forall v | v in Table(s).Values ensures v in (set i | 0 <= i < |c| :: c[i]) {
      var b :| b in Table(s) && Table(s)[b] == v;
      assert b in Elems(s);
      var i :| 0 <= i < |s| && s[i] == b;
      assert c[i] == v;
    }
  }

  /** Equal-byte / unequal-byte structure: the same length, and i and j hold
      equal bytes in `a` exactly when they do in `b`. */
  ghost predicate SameShape(a: seq<Byte>, b: seq<Byte>)
  {
    |a| == |b| && forall i, j :: 0 <= i < |a| && 0 <= j < |a| ==> (a[i] == a[j] <==> b[i] == b[j])
  }

  /** Words with one pattern have one shape. */
  lemma PatternGivesShape(a: seq<Byte>, b: seq<Byte>)
    requires Canon(a) == Canon(b)
    ensures SameShape(a, b)
  {
    CanonAt(a);
    CanonAt(b);
    forall i, j | 0 <= i < |a| && 0 <= j < |a| ensures a[i] == a[j] <==> b[i] == b[j] {
      CanonEqualIff(a, i, j);
      CanonEqualIff(b, i, j);
    }
  }

  /** Shapes of prefixes: dropping the last byte keeps two words' shapes equal. */
  lemma ShapeOfPrefix(a: seq<Byte>, b: seq<Byte>)
    requires SameShape(a, b) && a != []
    ensures SameShape(a[..|a| - 1], b[..|b| - 1])
  {
  }

  /** The size of the symbol table is determined by the pattern. */
  lemma TableSizeFromPattern(a: seq<Byte>, b: seq<Byte>)
    requires Canon(a) == Canon(b)
    ensures |Table(a)| == |Table(b)|
  {
    TableShape(a);
    TableShape(b);
    InjectiveIffValuesCard(Table(a));
    InjectiveIffValuesCard(Table(b));
    CanonValues(a);
    CanonValues(b);
  }

  /** A last byte seen before takes the symbol of that earlier position. */
  lemma RepeatedLastSymbol(s: seq<Byte>, j: nat)
    requires j < |s| - 1 && s[j] == s[|s| - 1]
    ensures |Canon(s[..|s| - 1])| == |s| - 1
    ensures Table(s)[s[|s| - 1]] == Canon(s[..|s| - 1])[j]
  {
    var p := s[..|s| - 1];
    CanonAt(p);
    assert p[j] == s[j];
  }

  /** A last byte not seen before takes the next unused symbol. */
  lemma FreshLastSymbol(s: seq<Byte>)
    requires s != [] && s[|s| - 1] !in s[..|s| - 1]
    ensures Table(s)[s[|s| - 1]] == |Table(s[..|s| - 1])|
  {
    var p := s[..|s| - 1];
    TableShape(p);
    assert s[|s| - 1] !in Elems(p);
  }

  /** For words whose prefixes share a pattern, the last symbols agree too. */
  lemma LastSymbolAgrees(a: seq<Byte>, b: seq<Byte>)
    requires SameShape(a, b) && a != []
    requires Canon(a[..|a| - 1]) == Canon(b[..|b| - 1])
    ensures Table(a)[a[|a| - 1]] == Table(b)[b[|b| - 1]]
  {
    var n := |a|;
    if j :| 0 <= j < n - 1 && a[j] == a[n - 1] {
      assert b[j] == b[n - 1];
      RepeatedLastSymbol(a, j);
      RepeatedLastSymbol(b, j);
    } else {
      assert a[n - 1] !in a[..n - 1];
      var b' := b[..n - 1];
      forall j | 0 <= j < n - 1 ensures b'[j] != b[n - 1] {
        assert a[j] != a[n - 1];
      }
      assert b[n - 1] !in b';
      FreshLastSymbol(a);
      FreshLastSymbol(b);
      TableSizeFromPattern(a[..n - 1], b[..n - 1]);
    }
  }

  /** Words of one shape have one pattern. */
  lemma {:induction false} ShapeGivesPattern(a: seq<Byte>, b: seq<Byte>)
    requires SameShape(a, b)
    ensures Canon(a) == Canon(b)
    decreases |a|
  {
    if a != [] {
      ShapeOfPrefix(a, b);
      ShapeGivesPattern(a[..|a| - 1], b[..|b| - 1]);
      LastSymbolAgrees(a, b);
    }
  }

  /** Two words share a pattern exactly when they have the same shape. */
  lemma SamePatternIff(a: seq<Byte>, b: seq<Byte>)
    ensures Canon(a) == Canon(b) <==> SameShape(a, b)
  {
    if Canon(a) == Canon(b) { PatternGivesShape(a, b); }
    if SameShape(a, b) { ShapeGivesPattern(a, b); }
  }

  /** "book" has pattern [0, 1, 1, 2]: a repeated byte reuses its symbol. */
  lemma ExampleBook()
    ensures Canon([98, 111, 111, 107]) == [0, 1, 1, 2]
  {
    var book: seq<Byte> := [98, 111, 111, 107];
    assert book[..3][..2] == book[..2] && book[..2][..1] == book[..1] && book[..1][..0] == [];
    assert Table(book[..1]) == map[98 := 0];
    assert Table(book[..2]) == map[98 := 0, 111 := 1];
    assert Table(book[..3]) == map[98 := 0, 111 := 1];
    assert Canon(book[..1]) == [0];
    assert Canon(book[..2]) == [0, 1];
    assert Canon(book[..3]) == [0, 1, 1];
  }

  /** "deed" has pattern [0, 1, 1, 0]: the last byte repeats the first. */
  lemma ExampleDeed()
    ensures Canon([100, 101, 101, 100]) == [0, 1, 1, 0]
  {
    var deed: seq<Byte> := [100, 101, 101, 100];
    assert deed[..3][..2] == deed[..2] && deed[..2][..1] == deed[..1] && deed[..1][..0] == [];
    assert Table(deed[..1]) == map[100 := 0];
    assert Table(deed[..2]) == map[100 := 0, 101 := 1];
    assert Table(deed[..3]) == map[100 := 0, 101 := 1];
    assert Canon(deed[..1]) == [0];
    assert Canon(deed[..2]) == [0, 1];
    assert Canon(deed[..3]) == [0, 1, 1];
  }

  /** `Pattern::from_str`. */
  method FromStr(s: seq<Byte>) returns (symbols: Pattern)
    ensures symbols == Canon(s)
  {
    var nextSymbol: nat := 0;
    var symbolMap: map<Byte, nat> := map[];
    symbols := [];
    var i := 0;
    while i < |s|
      invariant 0 <= i <= |s|
      invariant symbolMap == Table(s[..i])
      invariant nextSymbol == |symbolMap|
      invariant symbols == Canon(s[..i])
    {
      var u := s[i];
      var q := s[..i + 1];
      assert q[..|q| - 1] == s[..i];
      if u !in symbolMap {
        symbolMap := symbolMap[u := nextSymbol];
        nextSymbol := nextSymbol + 1;
      }
      symbols := symbols + [symbolMap[u]];
      i := i + 1;
    }
    assert s[..i] == s;
  }
}
