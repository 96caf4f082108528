/** A data frame as the pipeline sees one: named columns and rows of cells. A cell is missing
    (NaN), an integer statistic, or a piece of text such as a team name or a result letter. */
module Frames {

  datatype Cell = Missing | Int(i: int) | Str(s: string)

  type Row = seq<Cell>

  datatype Frame = Frame(columns: seq<string>, rows: seq<Row>)

  predicate Distinct<T(==)>(s: seq<T>) {
    forall i, j | 0 <= i < j < |s| :: s[i] != s[j]
  }

  /** Column names are unique and every row has one cell per column. */
  predicate WellFormed(f: Frame) {
    Distinct(f.columns) && forall r | r in f.rows :: |r| == |f.columns|
  }

  /** Row widths by position. */
  lemma RowWidths(f: Frame)
    requires WellFormed(f)
    ensures forall i | 0 <= i < |f.rows| :: |f.rows[i]| == |f.columns|
  {
    assert forall i | 0 <= i < |f.rows| :: f.rows[i] in f.rows;
  }

  /** Removing one entry keeps the others distinct. */
  lemma DistinctWithout<T>(s: seq<T>, k: nat)
    requires Distinct(s) && k < |s|
    ensures Distinct(s[..k] + s[k + 1..])
  {
    var t := s[..k] + s[k + 1..];
    forall a, b | 0 <= a < b < |t| ensures t[a] != t[b] {
      assert t[a] == s[if a < k then a else a + 1];
      assert t[b] == s[if b < k then b else b + 1];
    }
  }

  function Min(a: int, b: int): int {
    if a <= b then a else b
  }

  /** Position of the first occurrence of `x` in `s`. */
  function IndexOf<T(==)>(s: seq<T>, x: T): (i: nat)
    requires x in s
    ensures i < |s| && s[i] == x && x !in s[..i]
  {
    if s[0] == x then 0
    else
      var k := IndexOf(s[1..], x);
      assert s[..k + 1] == [s[0]] + s[1..][..k];
      k + 1
  }

  lemma IndexOfDistinct<T>(s: seq<T>, i: nat)
    requires Distinct(s) && i < |s|
    ensures IndexOf(s, s[i]) == i
  {
  }

  /** The cells of column `name`, one per row. */
  function Column(f: Frame, name: string): seq<Cell>
    requires WellFormed(f) && name in f.columns
  {
    var k := IndexOf(f.columns, name);
    seq(|f.rows|, i requires 0 <= i < |f.rows| => f.rows[i][k])
  }

  /** A cell occurs in a column exactly when some row holds it under that column. */
  lemma ColumnMembers(f: Frame, name: string, c: Cell)
    requires WellFormed(f) && name in f.columns
    ensures c in Column(f, name) <==> exists r | r in f.rows :: r[IndexOf(f.columns, name)] == c
  {
    var k := IndexOf(f.columns, name);
    var col := Column(f, name);
    if c in col {
      var i :| 0 <= i < |col| && col[i] == c;
      assert f.rows[i] in f.rows;
    }
    if exists r | r in f.rows :: r[k] == c {
      var r :| r in f.rows && r[k] == c;
      var i :| 0 <= i < |f.rows| && f.rows[i] == r;
      assert col[i] == c;
    }
  }

  /** The text of cells that all hold text. */
  function NamesOf(cells: seq<Cell>): (names: seq<string>)
    requires forall c | c in cells :: c.Str?
    ensures |names| == |cells| && forall i | 0 <= i < |cells| :: cells[i] == Str(names[i])
    ensures forall n :: n in names <==> Str(n) in cells
  {
    if cells == [] then [] else [cells[0].s] + NamesOf(cells[1..])
  }

  /** The elements of `s` that satisfy `p`, in their original order (boolean indexing). */
  function Filter<T>(s: seq<T>, p: T -> bool): seq<T> {
    FilterFrom(s, p, 0)
  }

  function FilterFrom<T>(s: seq<T>, p: T -> bool, i: nat): seq<T>
    decreases |s| - i
  {
    if i >= |s| then []
    else (if p(s[i]) then [s[i]] else []) + FilterFrom(s, p, i + 1)
  }

  /** The positions of the elements of `s` that satisfy `p`, in increasing order. */
  function Hits<T>(s: seq<T>, p: T -> bool): seq<nat> {
    HitsFrom(s, p, 0)
  }

  function HitsFrom<T>(s: seq<T>, p: T -> bool, i: nat): seq<nat>
    decreases |s| - i
  {
    if i >= |s| then []
    else (if p(s[i]) then [i] else []) + HitsFrom(s, p, i + 1)
  }

  predicate Increasing(h: seq<nat>) {
    forall a, b | 0 <= a < b < |h| :: h[a] < h[b]
  }

  /** The filter keeps exactly the elements at the hit positions. */
  lemma {:induction false} FilterFromAtHits<T>(s: seq<T>, p: T -> bool, i: nat)
    requires i <= |s|
    ensures var h, r := HitsFrom(s, p, i), FilterFrom(s, p, i);
      |r| == |h| && forall j | 0 <= j < |h| :: i <= h[j] < |s| && r[j] == s[h[j]]
    decreases |s| - i
  {
    if i < |s| {
      FilterFromAtHits(s, p, i + 1);
      var h, r := HitsFrom(s, p, i + 1), FilterFrom(s, p, i + 1);
      if p(s[i]) {
        assert HitsFrom(s, p, i) == [i] + h && FilterFrom(s, p, i) == [s[i]] + r;
      } else {
        assert HitsFrom(s, p, i) == h && FilterFrom(s, p, i) == r;
      }
    }
  }

  /** The hit positions are increasing. */
  lemma {:induction false} HitsFromIncreasing<T>(s: seq<T>, p: T -> bool, i: nat)
    requires i <= |s|
    ensures Increasing(HitsFrom(s, p, i))
    ensures forall j | 0 <= j < |HitsFrom(s, p, i)| :: i <= HitsFrom(s, p, i)[j]
    decreases |s| - i
  {
    if i < |s| {
      HitsFromIncreasing(s, p, i + 1);
    }
  }

  /** The hit positions are precisely the positions whose element satisfies `p`. */
  lemma {:induction false} HitsFromExact<T>(s: seq<T>, p: T -> bool, i: nat)
    requires i <= |s|
    ensures forall k | i <= k < |s| :: k in HitsFrom(s, p, i) <==> p(s[k])
    decreases |s| - i
  {
    if i < |s| {
      HitsFromExact(s, p, i + 1);
      HitsFromIncreasing(s, p, i + 1);
      assert i !in HitsFrom(s, p, i + 1);
    }
  }

  lemma FilterHits<T>(s: seq<T>, p: T -> bool)
    ensures var h, r := Hits(s, p), Filter(s, p);
      && |r| == |h| <= |s|
      && Increasing(h)
      && (forall j | 0 <= j < |h| :: h[j] < |s| && r[j] == s[h[j]])
      && (forall k | 0 <= k < |s| :: k in h <==> p(s[k]))
  {
    FilterFromAtHits(s, p, 0);
    HitsFromIncreasing(s, p, 0);
    HitsFromExact(s, p, 0);
    var h := Hits(s, p);
    HitsBounded(h, |s|);
  }

  /** An increasing sequence of positions below `n` has at most `n` entries. */
  lemma {:induction false} HitsBounded(h: seq<nat>, n: nat)
    requires Increasing(h) && forall j | 0 <= j < |h| :: h[j] < n
    ensures |h| <= n
  {
    if |h| > 0 {
      var t := h[..|h| - 1];
      assert forall j | 0 <= j < |t| :: t[j] < h[|h| - 1];
      HitsBounded(t, h[|h| - 1]);
    }
  }

  /** Every kept element satisfies `p` and came from `s`. */
  lemma FilterSound<T>(s: seq<T>, p: T -> bool)
    ensures forall x | x in Filter(s, p) :: p(x) && x in s
  {
    FilterHits(s, p);
    var h, r := Hits(s, p), Filter(s, p);
    forall x | x in r ensures p(x) && x in s {
      var j :| 0 <= j < |r| && r[j] == x;
      assert h[j] in h;
    }
  }

  /** The last `n` elements kept by a filter are the elements at the last `n` kept
      positions. */
  lemma TailOfFilter<T>(s: seq<T>, p: T -> bool, n: nat)
    ensures var h, w := Hits(s, p), Tail(Filter(s, p), n);
      && |w| == Min(|h|, n)
      && forall j | 0 <= j < |w| :: h[|h| - |w| + j] < |s| && w[j] == s[h[|h| - |w| + j]]
  {
    FilterHits(s, p);
    TailOfHits(s, Hits(s, p), Filter(s, p), n);
  }

  /** The last `n` of the elements picked from `s` at positions `h` are those at the last
      `n` positions. */
  lemma TailOfHits<T>(s: seq<T>, h: seq<nat>, m: seq<T>, n: nat)
    requires |m| == |h| && forall j | 0 <= j < |h| :: h[j] < |s| && m[j] == s[h[j]]
    ensures var w := Tail(m, n);
      && |w| == Min(|h|, n)
      && forall j | 0 <= j < |w| :: h[|h| - |w| + j] < |s| && w[j] == s[h[|h| - |w| + j]]
  {
    var w := Tail(m, n);
    forall j | 0 <= j < |w| ensures h[|h| - |w| + j] < |s| && w[j] == s[h[|h| - |w| + j]] {
      assert w[j] == m[|m| - |w| + j];
    }
  }

  /** The last `n` elements of `s`, in order, or all of them when there are fewer
      (DataFrame.tail). */
  function Tail<T>(s: seq<T>, n: nat): (t: seq<T>)
    ensures |t| == Min(|s|, n)
    ensures forall j | 0 <= j < |t| :: t[j] == s[|s| - |t| + j]
  {
    if |s| <= n then s else s[|s| - n..]
  }
}
