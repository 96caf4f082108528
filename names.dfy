/** Ordering and de-duplication of team names, as Python's `sorted(set(...))` does it: strings
    compare code point by code point, and a proper prefix sorts first. */
module Names {

  /** Python's `a < b` on strings. */
  predicate Below(a: string, b: string)
    decreases |a|
  {
    if a == [] then b != []
    else if b == [] then false
    else if a[0] != b[0] then a[0] < b[0]
    else Below(a[1..], b[1..])
  }

  lemma {:induction false} BelowIrreflexive(a: string)
    ensures !Below(a, a)
    decreases |a|
  {
    if a != [] {
      BelowIrreflexive(a[1..]);
    }
  }

  lemma {:induction false} BelowTransitive(a: string, b: string, c: string)
    requires Below(a, b) && Below(b, c)
    ensures Below(a, c)
    decreases |a|
  {
    if a != [] && a[0] == b[0] && b[0] == c[0] {
      BelowTransitive(a[1..], b[1..], c[1..]);
    }
  }

  lemma {:induction false} BelowTotal(a: string, b: string)
    requires a != b
    ensures Below(a, b) || Below(b, a)
    decreases |a|
  {
    if a != [] && b != [] && a[0] == b[0] {
      assert a == [a[0]] + a[1..] && b == [b[0]] + b[1..];
      BelowTotal(a[1..], b[1..]);
    }
  }

  lemma BelowAsymmetric(a: string, b: string)
    requires Below(a, b)
    ensures !Below(b, a)
  {
    if Below(b, a) {
      BelowTransitive(a, b, a);
      BelowIrreflexive(a);
    }
  }

  /** Each name sorts strictly before the next, so no name occurs twice. */
  predicate StrictlySorted(s: seq<string>) {
    forall i, j | 0 <= i < j < |s| :: Below(s[i], s[j])
  }

  lemma SortedDistinctEntries(s: seq<string>, i: nat, j: nat)
    requires StrictlySorted(s) && i < |s| && j < |s|
    ensures s[i] == s[j] <==> i == j
  {
    if i < j || j < i {
      BelowIrreflexive(s[i]);
    }
  }

  /** Places `x` into a strictly sorted sequence, unless it is there already. */
  function Insert(x: string, s: seq<string>): (r: seq<string>)
    requires StrictlySorted(s)
    ensures StrictlySorted(r)
    ensures forall y :: y in r <==> y == x || y in s
  {
    if s == [] then [x]
    else if x == s[0] then s
    else if Below(x, s[0]) then
      assert forall j | 0 < j < |s| :: Below(x, s[j]) by {
        forall j | 0 < j < |s| ensures Below(x, s[j]) {
          BelowTransitive(x, s[0], s[j]);
        }
      }
      [x] + s
    else
      var t := Insert(x, s[1..]);
      assert Below(s[0], x) by { BelowTotal(x, s[0]); }
      assert forall y | y in t :: Below(s[0], y);
      [s[0]] + t
  }

  /** `sorted(set(names))`: the distinct names in increasing order. */
  function SortedDistinct(names: seq<string>): (r: seq<string>)
    ensures StrictlySorted(r)
    ensures forall y :: y in r <==> y in names
  {
    if names == [] then []
    else Insert(names[|names| - 1], SortedDistinct(names[..|names| - 1]))
  }

  /** Two strictly sorted sequences with the same members are equal: the sorted distinct
      list of a collection of names depends only on which names occur. */
  lemma {:induction false} SortedUnique(s: seq<string>, t: seq<string>)
    requires StrictlySorted(s) && StrictlySorted(t)
    requires forall y :: y in s <==> y in t
    ensures s == t
    decreases |s|
  {
    assert s != [] ==> s[0] in t;
    assert t != [] ==> t[0] in s;
    if s != [] && t != [] {
      HeadNotBelow(s, t);
      HeadNotBelow(t, s);
      if s[0] != t[0] {
        BelowTotal(s[0], t[0]);
      }
      forall y ensures y in s[1..] <==> y in t[1..] {
        if y in s[1..] {
          var j :| 1 <= j < |s| && s[j] == y;
          SortedDistinctEntries(s, 0, j);
          assert y in t;
        }
        if y in t[1..] {
          var j :| 1 <= j < |t| && t[j] == y;
          SortedDistinctEntries(t, 0, j);
          assert y in s;
        }
      }
      SortedUnique(s[1..], t[1..]);
      assert s == [s[0]] + s[1..] && t == [t[0]] + t[1..];
    }
  }

  lemma HeadNotBelow(s: seq<string>, t: seq<string>)
    requires StrictlySorted(s) && StrictlySorted(t) && s != [] && t != []
    requires forall y :: y in s <==> y in t
    ensures !Below(s[0], t[0])
  {
    assert s[0] in s;
    var j :| 0 <= j < |t| && t[j] == s[0];
    if j == 0 {
      BelowIrreflexive(s[0]);
    } else {
      BelowAsymmetric(t[0], t[j]);
    }
  }

  /** The number of distinct names is the length of the sorted distinct list. */
  lemma {:induction false} SortedDistinctCount(names: seq<string>)
    ensures |SortedDistinct(names)| == |set y | y in names|
  {
    var r := SortedDistinct(names);
    DistinctCardinality(r);
    assert (set y | y in r) == (set y | y in names);
  }

  lemma {:induction false} DistinctCardinality(s: seq<string>)
    requires StrictlySorted(s)
    ensures |set y | y in s| == |s|
    decreases |s|
  {
    if s != [] {
      var t := s[1..];
      DistinctCardinality(t);
      assert s[0] !in t by {
        forall j | 0 <= j < |t| ensures t[j] != s[0] {
          SortedDistinctEntries(s, 0, j + 1);
        }
      }
      assert (set y | y in s) == (set y | y in t) + {s[0]};
    }
  }
}
