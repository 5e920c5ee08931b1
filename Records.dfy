/**
 A record (`stringOnlyJSON`, a Go `map[string]string`) and its keys in sorted
 order. Go ranges over a map in an unspecified order; both renderers collect
 the keys in that order into a slice and sort it, which leaves the one
 strictly increasing enumeration of the key set (`SortedKeys`).
 */
module Records {
  import opened StringOrder
  import opened SortStrings

  type Record = map<string, string>

  ghost predicate Distinct(s: seq<string>)
  {
    forall i, j :: 0 <= i < j < |s| ==> s[i] != s[j]
  }

  ghost predicate StrictlySorted(s: seq<string>)
  {
    forall i, j :: 0 <= i < j < |s| ==> Less(s[i], s[j])
  }

  /** s lists the strings of keys and nothing else. */
  ghost predicate Enumerates(s: seq<string>, keys: set<string>)
  {
    forall k :: k in s <==> k in keys
  }

  ghost predicate IsSortedKeys(s: seq<string>, keys: set<string>)
  {
    StrictlySorted(s) && Enumerates(s, keys)
  }

  /** Every non-empty set of strings has a least element. */
  lemma {:induction false} MinimumExists(keys: set<string>)
    requires keys != {}
    ensures exists k :: k in keys && forall j :: j in keys ==> LessEq(k, j)
    decreases keys
  {
    var x :| x in keys;
    if keys != {x} {
      var others := keys - {x};
      MinimumExists(others);
      var m :| m in others && forall j :: j in others ==> LessEq(m, j);
      LessTotal(x, m);
      if LessEq(x, m) {
        forall j | j in keys ensures LessEq(x, j) {
          if j != x {
            LessEqTransitive(x, m, j);
          }
        }
      } else {
        assert forall j :: j in keys ==> LessEq(m, j);
      }
    } else {
      assert forall j :: j in keys ==> LessEq(x, j);
    }
  }

  /** The keys in strictly increasing order: one entry per key. */
  ghost function SortedKeys(keys: set<string>): (s: seq<string>)
    ensures IsSortedKeys(s, keys)
    ensures |s| == |keys|
    decreases keys
  {
    if keys == {} then []
    else
      MinimumExists(keys);
      var k :| k in keys && forall j :: j in keys ==> LessEq(k, j);
      var rest := SortedKeys(keys - {k});
      assert forall j :: j in rest ==> Less(k, j);
      [k] + rest
  }

  lemma EnumeratesEmpty(s: seq<string>, keys: set<string>)
    requires Enumerates(s, keys)
    ensures s == [] <==> keys == {}
  {
    if s != [] {
      assert s[0] in keys;
    }
  }

  /** There is only one strictly increasing enumeration of a key set. */
  lemma {:induction false} SortedKeysUnique(a: seq<string>, b: seq<string>, keys: set<string>)
    requires IsSortedKeys(a, keys) && IsSortedKeys(b, keys)
    ensures a == b
    decreases |a|
  {
    EnumeratesEmpty(a, keys);
    EnumeratesEmpty(b, keys);
    if keys != {} {
      if a[0] != b[0] {
        assert b[0] in a;
        assert a[0] in b;
        LessAsymmetric(a[0], b[0]);
        assert false;
      }
      var k := a[0];
      forall x | x in a[1..] ensures x != k {
        LessIrreflexive(k);
      }
      forall x | x in b[1..] ensures x != k {
        LessIrreflexive(k);
      }
      assert IsSortedKeys(a[1..], keys - {k});
      assert IsSortedKeys(b[1..], keys - {k});
      SortedKeysUnique(a[1..], b[1..], keys - {k});
      assert a == [k] + a[1..] && b == [k] + b[1..];
    }
  }

  lemma SortedKeysSingle(a: string)
    ensures SortedKeys({a}) == [a]
  {
    assert IsSortedKeys([a], {a});
    SortedKeysUnique([a], SortedKeys({a}), {a});
  }

  lemma SortedKeysPair(a: string, b: string)
    requires Less(a, b)
    ensures SortedKeys({a, b}) == [a, b]
  {
    assert IsSortedKeys([a, b], {a, b});
    SortedKeysUnique([a, b], SortedKeys({a, b}), {a, b});
  }

  /** A sorted list of distinct strings enumerating a key set is the sorted key list. */
  lemma SortedDistinctIsSortedKeys(s: seq<string>, keys: set<string>)
    requires Sorted(s) && Distinct(s) && Enumerates(s, keys)
    ensures s == SortedKeys(keys)
  {
    assert StrictlySorted(s);
    SortedKeysUnique(s, SortedKeys(keys), keys);
  }

  /** The strings of a sequence, as a set. */
  function Elements(s: seq<string>): set<string>
  {
    set x | x in s
  }

  /** A sequence has at least as many entries as distinct strings, exactly as many when they are distinct. */
  lemma {:induction false} ElementsCardinality(s: seq<string>)
    ensures |Elements(s)| <= |s|
    ensures |Elements(s)| == |s| <==> Distinct(s)
  {
    if s != [] {
      var t := s[1..];
      ElementsCardinality(t);
      assert Elements(s) == {s[0]} + Elements(t);
      if s[0] in t {
        assert Elements(s) == Elements(t);
        var j :| 0 <= j < |t| && t[j] == s[0];
        assert s[j + 1] == s[0];
      } else {
        assert Distinct(s) <==> Distinct(t) by {
          if Distinct(t) {
            forall i, j | 0 <= i < j < |s| ensures s[i] != s[j] {
              if i > 0 {
                assert s[i] == t[i - 1] && s[j] == t[j - 1];
              } else {
                assert s[j] == t[j - 1];
              }
            }
          }
          if Distinct(s) {
            forall i, j | 0 <= i < j < |t| ensures t[i] != t[j] {
              assert t[i] == s[i + 1] && t[j] == s[j + 1];
            }
          }
        }
      }
    }
  }

  /** A string occurs at most once in a sequence of distinct strings. */
  lemma {:induction false} DistinctMultiplicity(s: seq<string>, x: string)
    requires Distinct(s)
    ensures multiset(s)[x] <= 1
  {
    if s != [] {
      assert Distinct(s[1..]);
      DistinctMultiplicity(s[1..], x);
      assert s == [s[0]] + s[1..];
      if x == s[0] {
        assert x !in s[1..];
      }
    }
  }

  /** Rearranging a sequence of distinct strings keeps them distinct. */
  lemma PermutationDistinct(s: seq<string>, t: seq<string>)
    requires Distinct(s) && multiset(s) == multiset(t)
    ensures Distinct(t)
  {
    forall i, j | 0 <= i < j < |t| ensures t[i] != t[j] {
      if t[i] == t[j] {
        var x := t[i];
        assert t == t[..j] + [t[j]] + t[j + 1..];
        assert x in t[..j];
        assert multiset(t)[x] >= 2;
        DistinctMultiplicity(s, x);
      }
    }
  }

  /**
   The range loop over the map: each key, in whatever order the map yields
   them, is stored at the next index of a slice of length len(m).
   */
  method CollectKeys(m: Record) returns (keys: array<string>)
    ensures fresh(keys)
    ensures keys.Length == |m|
    ensures Distinct(keys[..]) && Enumerates(keys[..], m.Keys)
  {
    keys := new string[|m|];
    var i := 0;
    var unvisited := m.Keys;
    while unvisited != {}
      invariant unvisited <= m.Keys
      invariant 0 <= i && i + |unvisited| == |m|
      invariant forall p :: 0 <= p < i ==> keys[p] in m && keys[p] !in unvisited
      invariant forall k :: k in m && k !in unvisited ==> k in keys[..i]
      invariant Distinct(keys[..i])
      decreases unvisited
    {
      var k :| k in unvisited;
      ghost var before := keys[..i];
      keys[i] := k;
      assert keys[..i + 1] == before + [k];
      i := i + 1;
      unvisited := unvisited - {k};
    }
    assert keys[..] == keys[..i];
    assert Enumerates(keys[..i], m.Keys);
  }

  /** Lines 27-34 of the CSV renderer and 30-36 of `String`: collect the keys, then sort them. */
  method SortedKeyArray(m: Record) returns (keys: array<string>)
    ensures fresh(keys)
    ensures keys[..] == SortedKeys(m.Keys)
  {
    keys := CollectKeys(m);
    ghost var collected := keys[..];
    Sort(keys);
    PermutationDistinct(collected, keys[..]);
    assert Enumerates(keys[..], m.Keys) by {
      forall k ensures k in keys[..] <==> k in collected {
        assert k in multiset(keys[..]) <==> k in multiset(collected);
      }
    }
    SortedDistinctIsSortedKeys(keys[..], m.Keys);
  }
}
