/** Partial letter mappings and the two relations the search needs on them. */
module Mappings {
  import opened Bytes

  /** A partial substitution from encrypted byte to decrypted byte. */
  type Mapping = map<Byte, Byte>

  /** No two keys share a value. */
  ghost predicate Injective<K, V>(m: map<K, V>)
  {
    forall x, y :: x in m && y in m && x != y ==> m[x] != m[y]
  }

  /** `big` keeps every entry of `small`. */
  ghost predicate Extends<K, V>(small: map<K, V>, big: map<K, V>)
  {
    forall x :: x in small ==> x in big && big[x] == small[x]
  }

  /** A map is injective exactly when it has as many distinct values as keys;
      this is the test `try_extend_mapping` performs with its value set. */
  lemma {:induction false} InjectiveIffValuesCard<K, V>(m: map<K, V>)
    ensures |m.Values| <= |m.Keys|
    ensures Injective(m) <==> |m.Values| == |m.Keys|
    decreases |m|
  {
    if m != map[] {
      var k :| k in m;
      var rest := m - {k};
      InjectiveIffValuesCard(rest);
      assert m.Keys == rest.Keys + {k};
      assert |m.Keys| == |rest.Keys| + 1;
      if m[k] in rest.Values {
        var k' :| k' in rest && rest[k'] == m[k];
        assert m.Values == rest.Values by {
          forall v | v in m.Values ensures v in rest.Values {
            var x :| x in m && m[x] == v;
            if x != k { assert rest[x] == v; }
          }
        }
        assert k' in m && k' != k && m[k'] == m[k];
      } else {
        assert m.Values == rest.Values + {m[k]} by {
          forall v | v in m.Values ensures v in rest.Values + {m[k]} {
            var x :| x in m && m[x] == v;
            if x != k { assert rest[x] == v; }
          }
        }
        assert |m.Values| == |rest.Values| + 1;
        if Injective(rest) {
          forall x, y | x in m && y in m && x != y ensures m[x] != m[y] {
            if x != k && y != k { assert rest[x] != rest[y]; }
            else if x == k { assert m[y] == rest[y]; }
            else { assert m[x] == rest[x]; }
          }
        } else {
          var x, y :| x in rest && y in rest && x != y && rest[x] == rest[y];
          assert x in m && y in m && m[x] == m[y];
        }
      }
    }
  }

  /** A sub-map of an injective map is injective. */
  lemma ExtendsKeepsInjective<K, V>(small: map<K, V>, big: map<K, V>)
    requires Extends(small, big) && Injective(big)
    ensures Injective(small)
  {
    forall x, y | x in small && y in small && x != y ensures small[x] != small[y] {
      assert big[x] != big[y];
    }
  }
}
