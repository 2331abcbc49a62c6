/** The order `ORDER BY name` produces: SQLite's default BINARY collation compares the UTF-8
    bytes of two texts, which for well-formed text is the code-point order of their
    characters, a proper prefix coming first. */
module Order {

  /** `a` sorts strictly before `b`. */
  predicate LexLess(a: string, b: string)
    decreases |a|
  {
    if a == [] then b != []
    else if b == [] then false
    else if a[0] == b[0] then LexLess(a[1..], b[1..])
    else a[0] < b[0]
  }

  lemma {:induction false} LexIrreflexive(a: string)
    ensures !LexLess(a, a)
    decreases |a|
  {
    if a != [] {
      LexIrreflexive(a[1..]);
    }
  }

  lemma {:induction false} LexTransitive(a: string, b: string, c: string)
    requires LexLess(a, b) && LexLess(b, c)
    ensures LexLess(a, c)
    decreases |a|
  {
    if a != [] && a[0] == b[0] && b[0] == c[0] {
      LexTransitive(a[1..], b[1..], c[1..]);
    }
  }

  lemma {:induction false} LexTotal(a: string, b: string)
    requires a != b
    ensures LexLess(a, b) || LexLess(b, a)
    decreases |a|
  {
    if a != [] && b != [] && a[0] == b[0] {
      assert a == [a[0]] + a[1..] && b == [b[0]] + b[1..];
      LexTotal(a[1..], b[1..]);
    }
  }

  /** `ids` lists every member of `s` once, in strictly increasing order of `names`. */
  predicate IsSortedEnumeration(ids: seq<int>, s: set<int>, names: map<int, string>)
  {
    && (forall k :: 0 <= k < |ids| ==> ids[k] in s && ids[k] in names)
    && (forall x :: x in s ==> x in ids)
    && (forall i, j :: 0 <= i < j < |ids| ==> LexLess(names[ids[i]], names[ids[j]]))
  }

  /** Names that tell the members of `s` apart, as the unique indexes guarantee for siblings. */
  predicate DistinctNames(s: set<int>, names: map<int, string>)
  {
    && s <= names.Keys
    && (forall i, j :: i in s && j in s && i != j ==> names[i] != names[j])
  }

  lemma Pick(s: set<int>) returns (y: int)
    requires |s| != 0
    ensures y in s
  {
    if forall z :: z !in s {
      assert false;
    }
    y :| y in s;
  }

  /** `m` is the member of `s` whose name sorts first. */
  predicate IsMinimum(m: int, s: set<int>, names: map<int, string>)
    requires s <= names.Keys
  {
    m in s && forall x :: x in s && x != m ==> LexLess(names[m], names[x])
  }

  lemma {:induction false} MinimumExists(s: set<int>, names: map<int, string>) returns (m: int)
    requires |s| != 0
    requires DistinctNames(s, names)
    ensures IsMinimum(m, s, names)
    decreases |s|
  {
    var y := Pick(s);
    if s == {y} {
      m := y;
    } else {
      var rest := s - {y};
      var m' := MinimumExists(rest, names);
      LexTotal(names[y], names[m']);
      if LexLess(names[y], names[m']) {
        m := y;
        forall x | x in s && x != m ensures LexLess(names[m], names[x]) {
          if x != m' {
            LexTransitive(names[y], names[m'], names[x]);
          }
        }
      } else {
        m := m';
      }
    }
  }

  /** A non-empty set has exactly one member whose name sorts first. */
  lemma HasUniqueMinimum(s: set<int>, names: map<int, string>)
    requires |s| != 0
    requires DistinctNames(s, names)
    ensures exists m :: IsMinimum(m, s, names)
    ensures forall a, b :: IsMinimum(a, s, names) && IsMinimum(b, s, names) ==> a == b
  {
    var m := MinimumExists(s, names);
    forall a, b | IsMinimum(a, s, names) && IsMinimum(b, s, names) ensures a == b {
      if a != b {
        LexTransitive(names[a], names[b], names[a]);
        LexIrreflexive(names[a]);
      }
    }
  }

  /** The rows of `s` as `ORDER BY name` returns them: the first by name, then the rest. */
  function OrderByName(s: set<int>, names: map<int, string>): (ids: seq<int>)
    requires DistinctNames(s, names)
    ensures IsSortedEnumeration(ids, s, names)
    ensures |ids| == |s|
    decreases |s|
  {
    if |s| == 0 then []
    else
      HasUniqueMinimum(s, names);
      var m :| IsMinimum(m, s, names);
      var tail := OrderByName(s - {m}, names);
      assert forall i, j :: 0 <= i < j < |[m] + tail| ==>
        LexLess(names[([m] + tail)[i]], names[([m] + tail)[j]]) by {
        forall i, j | 0 <= i < j < |[m] + tail|
          ensures LexLess(names[([m] + tail)[i]], names[([m] + tail)[j]])
        {
          if i == 0 {
            assert ([m] + tail)[j] == tail[j - 1];
          } else {
            assert ([m] + tail)[i] == tail[i - 1] && ([m] + tail)[j] == tail[j - 1];
          }
        }
      }
      assert forall x :: x in s ==> x in [m] + tail by {
        forall x | x in s ensures x in [m] + tail {
          if x != m {
            assert x in tail;
          }
        }
      }
      [m] + tail
  }

  /** The sorted enumeration is unique: the listing order is fully determined. */
  lemma {:induction false} SortedEnumerationUnique(a: seq<int>, b: seq<int>, s: set<int>, names: map<int, string>)
    requires IsSortedEnumeration(a, s, names) && IsSortedEnumeration(b, s, names)
    ensures a == b
    decreases |a|
  {
    if |a| == 0 {
      if |b| != 0 {
        assert b[0] in s;
        assert forall x :: x in s ==> x in a;
        assert false;
      }
    } else if |b| == 0 {
      assert a[0] in s;
      assert forall x :: x in s ==> x in b;
      assert false;
    } else {
      // the first element of each is the least member of s
      if a[0] != b[0] {
        var ka :| 0 <= ka < |b| && b[ka] == a[0];
        var kb :| 0 <= kb < |a| && a[kb] == b[0];
        assert ka > 0 && kb > 0;
        LexTransitive(names[a[0]], names[a[kb]], names[b[ka]]);
        LexIrreflexive(names[a[0]]);
      }
      var s' := s - {a[0]};
      forall k | 0 <= k < |a[1..]| ensures a[1..][k] != a[0] {
        LexIrreflexive(names[a[0]]);
        assert LexLess(names[a[0]], names[a[k + 1]]);
      }
      forall k | 0 <= k < |b[1..]| ensures b[1..][k] != b[0] {
        LexIrreflexive(names[b[0]]);
        assert LexLess(names[b[0]], names[b[k + 1]]);
      }
      forall x | x in s' ensures x in a[1..] && x in b[1..] {
        assert x in a && x in b;
      }
      assert IsSortedEnumeration(a[1..], s', names);
      assert IsSortedEnumeration(b[1..], s', names);
      SortedEnumerationUnique(a[1..], b[1..], s', names);
      assert a == [a[0]] + a[1..] && b == [b[0]] + b[1..];
    }
  }
}
