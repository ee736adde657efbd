/**
 * Python 2's ordering of strings and of `(count, name)` tuples, and the
 * sorts the profiler obtains from `list.sort()` and `sorted()`.
 */
module Order {
  import opened Text

  /** `a < b` on Python 2 byte strings: the first differing character decides; a proper prefix is smaller. */
  predicate LexLess(a: string, b: string) {
    if |a| == 0 then |b| > 0
    else if |b| == 0 then false
    else if a[0] != b[0] then a[0] < b[0]
    else LexLess(a[1..], b[1..])
  }

  predicate LexLeq(a: string, b: string) {
    a == b || LexLess(a, b)
  }

  lemma {:induction false} LexIrreflexive(a: string)
    ensures !LexLess(a, a)
  {
    if |a| > 0 { LexIrreflexive(a[1..]); }
  }

  /** Lexical order is total: two different strings are ordered one way or the other. */
  lemma {:induction false} LexTotal(a: string, b: string)
    ensures LexLess(a, b) || a == b || LexLess(b, a)
  {
    if |a| > 0 && |b| > 0 && a[0] == b[0] {
      LexTotal(a[1..], b[1..]);
      if a[1..] == b[1..] {
        assert a == [a[0]] + a[1..] && b == [b[0]] + b[1..];
      }
    }
  }

  lemma {:induction false} LexTransitive(a: string, b: string, c: string)
    requires LexLess(a, b) && LexLess(b, c)
    ensures LexLess(a, c)
  {
    if |a| > 0 && a[0] == b[0] && b[0] == c[0] {
      LexTransitive(a[1..], b[1..], c[1..]);
    }
  }

  lemma LowerHexDigitOrder(c: char, d: char)
    requires '0' <= c <= '9' || 'a' <= c <= 'f'
    requires '0' <= d <= '9' || 'a' <= d <= 'f'
    requires c < d
    ensures HexDigit(c) < HexDigit(d)
  {
  }

  lemma LeadingDigitDecides(s: string, t: string)
    requires |s| == |t| > 0 && AllHex(s) && AllHex(t)
    requires HexDigit(s[0]) < HexDigit(t[0])
    ensures HexOf(s) < HexOf(t)
  {
    PlaceValue(HexDigit(s[0]), HexDigit(t[0]), Pow16(|s| - 1), HexOf(s[1..]), HexOf(t[1..]));
  }

  lemma PlaceValue(ds: nat, dt: nat, p: nat, rs: nat, rt: nat)
    requires ds < dt && rs < p
    ensures ds * p + rs < dt * p + rt
  {
    MulMono(ds + 1, dt, p);
  }

  /**
   * For lower-case hex strings of one width, comparing them as strings is
   * comparing their values: this is what lets the profiler sort addresses
   * as text before resolving them as numbers.
   */
  lemma {:induction false} HexOrderIsLexOrder(s: string, t: string)
    requires |s| == |t| && LowerHex(s) && LowerHex(t)
    ensures LexLess(s, t) <==> HexOf(s) < HexOf(t)
  {
    if |s| > 0 {
      if s[0] == t[0] {
        HexOrderIsLexOrder(s[1..], t[1..]);
      } else if s[0] < t[0] {
        LowerHexDigitOrder(s[0], t[0]);
        LeadingDigitDecides(s, t);
      } else {
        LowerHexDigitOrder(t[0], s[0]);
        LeadingDigitDecides(t, s);
      }
    }
  }

  /** Without equal widths the two orders part: "100" sorts before "ff" although 0x100 > 0xff. */
  lemma MixedWidthsDisagree()
    ensures LexLess("100", "ff") && HexOf("100") > HexOf("ff")
  {
    assert HexOf("ff") == 255 by {
      assert "ff"[1..] == "f";
      assert "f"[1..] == "";
    }
    assert HexOf("100") == 256 by {
      assert "100"[1..] == "00";
      assert "00"[1..] == "0";
      assert "0"[1..] == "";
    }
  }

  // ---- list.sort() on strings ----

  /** Each string is lexically at most the next one. */
  predicate SortedLex(s: seq<string>) {
    forall i :: 0 < i < |s| ==> LexLeq(s[i - 1], s[i])
  }

  /** Adjacent order gives order between any two positions. */
  lemma {:induction false} SortedLexPairwise(s: seq<string>, i: nat, j: nat)
    requires SortedLex(s) && i <= j < |s|
    ensures LexLeq(s[i], s[j])
    decreases j - i
  {
    if i < j {
      SortedLexPairwise(s, i + 1, j);
      if s[i] != s[i + 1] && s[i + 1] != s[j] {
        LexTransitive(s[i], s[i + 1], s[j]);
      }
    }
  }

  function InsertLex(x: string, s: seq<string>): (r: seq<string>)
    requires SortedLex(s)
    ensures SortedLex(r) && multiset(r) == multiset(s) + multiset{x}
    ensures r[0] == x || (|s| > 0 && r[0] == s[0])
  {
    if |s| == 0 then [x]
    else if LexLeq(x, s[0]) then [x] + s
    else
      LexTotal(x, s[0]);
      assert s == [s[0]] + s[1..];
      [s[0]] + InsertLex(x, s[1..])
  }

  /** `rips.sort()`: the same strings in non-decreasing lexical order. */
  function SortLex(s: seq<string>): (r: seq<string>)
    ensures SortedLex(r) && multiset(r) == multiset(s)
  {
    if |s| == 0 then []
    else
      assert s == [s[0]] + s[1..];
      InsertLex(s[0], SortLex(s[1..]))
  }

  // ---- (count, name) tuples ----

  type Rank = (nat, string)

  /** Python's tuple comparison on `(count, name)`: by count, then by name. */
  predicate RankLess(x: Rank, y: Rank) {
    x.0 < y.0 || (x.0 == y.0 && LexLess(x.1, y.1))
  }

  predicate RankLeq(x: Rank, y: Rank) {
    x == y || RankLess(x, y)
  }

  lemma RankTotal(x: Rank, y: Rank)
    ensures RankLess(x, y) || x == y || RankLess(y, x)
  {
    LexTotal(x.1, y.1);
  }

  lemma RankIrreflexive()
    ensures forall x: Rank :: !RankLess(x, x)
  {
    forall x: Rank ensures !RankLess(x, x) { LexIrreflexive(x.1); }
  }

  lemma RankTransitive(x: Rank, y: Rank, z: Rank)
    requires RankLess(x, y) && RankLess(y, z)
    ensures RankLess(x, z)
  {
    if x.0 == y.0 == z.0 { LexTransitive(x.1, y.1, z.1); }
  }

  /** Each tuple is at most the next one. */
  predicate SortedRanks(s: seq<Rank>) {
    forall i :: 0 < i < |s| ==> RankLeq(s[i - 1], s[i])
  }

  /** Strictly decreasing: every entry is greater than every later one. */
  predicate StrictlyDescending(s: seq<Rank>) {
    forall i, j :: 0 <= i < j < |s| ==> RankLess(s[j], s[i])
  }

  function InsertRank(x: Rank, s: seq<Rank>): (r: seq<Rank>)
    requires SortedRanks(s)
    ensures SortedRanks(r) && multiset(r) == multiset(s) + multiset{x}
    ensures r[0] == x || (|s| > 0 && r[0] == s[0])
  {
    if |s| == 0 then [x]
    else if RankLeq(x, s[0]) then [x] + s
    else
      RankTotal(x, s[0]);
      assert s == [s[0]] + s[1..];
      [s[0]] + InsertRank(x, s[1..])
  }

  /** `list.sort()` on `(count, name)` tuples. */
  function SortRanks(s: seq<Rank>): (r: seq<Rank>)
    ensures SortedRanks(r) && multiset(r) == multiset(s)
  {
    if |s| == 0 then []
    else
      assert s == [s[0]] + s[1..];
      InsertRank(s[0], SortRanks(s[1..]))
  }

  function Reverse<T>(s: seq<T>): (r: seq<T>)
    ensures |r| == |s| && forall i :: 0 <= i < |s| ==> r[i] == s[|s| - 1 - i]
  {
    if |s| == 0 then [] else Reverse(s[1..]) + [s[0]]
  }

  predicate Distinct<T(==)>(s: seq<T>) {
    forall i, j :: 0 <= i < j < |s| ==> s[i] != s[j]
  }

  /** How often `x` occurs in `s`. */
  function Occ<T(==)>(s: seq<T>, x: T): nat {
    if |s| == 0 then 0 else Occ(s[..|s| - 1], x) + (if s[|s| - 1] == x then 1 else 0)
  }

  /** An element of a list without repeats occurs in it exactly once. */
  lemma {:induction false} OccDistinct<T>(s: seq<T>, x: T)
    requires Distinct(s)
    ensures Occ(s, x) == (if x in s then 1 else 0)
  {
    if |s| > 0 {
      var p := s[..|s| - 1];
      assert Distinct(p);
      OccDistinct(p, x);
      assert s == p + [s[|s| - 1]];
      if s[|s| - 1] == x {
        assert x !in p;
      }
    }
  }

  /**
   * `fin.sort(); fin.reverse()` on tuples that are all different: the
   * result is strictly descending by count and, on equal counts, by name.
   */
  lemma SortThenReverse(s: seq<Rank>)
    requires Distinct(s)
    ensures StrictlyDescending(Reverse(SortRanks(s)))
    ensures multiset(Reverse(SortRanks(s))) == multiset(s)
  {
    var a := SortRanks(s);
    ReverseMultiset(a);
    DistinctPermutation(s, a);
    SortedDistinctAscending(a);
  }

  /** Sorted and free of duplicates means each tuple is strictly below every later one. */
  lemma {:induction false} SortedDistinctAscending(a: seq<Rank>)
    requires SortedRanks(a) && Distinct(a)
    ensures forall i, j :: 0 <= i < j < |a| ==> RankLess(a[i], a[j])
  {
    if |a| > 1 {
      SortedDistinctAscending(a[1..]);
      forall j | 1 < j < |a| ensures RankLess(a[0], a[j]) {
        assert a[1..][j - 1] == a[j];
        RankTransitive(a[0], a[1], a[j]);
      }
    }
  }

  lemma {:induction false} ReverseMultiset<T>(s: seq<T>)
    ensures multiset(Reverse(s)) == multiset(s)
  {
    if |s| > 0 {
      ReverseMultiset(s[1..]);
      assert s == [s[0]] + s[1..];
    }
  }

  lemma DistinctPermutation<T>(s: seq<T>, t: seq<T>)
    requires Distinct(s) && multiset(s) == multiset(t)
    ensures Distinct(t)
  {
    forall x | x in multiset(s) ensures multiset(s)[x] == 1 {
      DistinctCount(s, x);
    }
    forall i, j | 0 <= i < j < |t| ensures t[i] != t[j] {
      var x := t[i];
      assert t == t[..i] + [t[i]] + t[i+1..j] + [t[j]] + t[j+1..];
      assert x in multiset(s);
    }
  }

  lemma {:induction false} DistinctCount<T>(s: seq<T>, x: T)
    requires Distinct(s) && x in s
    ensures multiset(s)[x] == 1
  {
    assert s == [s[0]] + s[1..];
    if s[0] == x {
      assert x !in s[1..];
    } else {
      DistinctCount(s[1..], x);
    }
  }

  /**
   * A strictly descending list is determined by its elements: whatever order
   * a dict hands its keys out in, the sorted ranking comes out the same.
   */
  lemma {:induction false} DescendingUnique(a: seq<Rank>, b: seq<Rank>)
    requires StrictlyDescending(a) && StrictlyDescending(b)
    requires forall x :: x in a <==> x in b
    ensures a == b
  {
    if |a| > 0 && |b| > 0 {
      RankIrreflexive();
      if a[0] != b[0] {
        assert a[0] in b && b[0] in a;
        var i :| 0 <= i < |a| && a[i] == b[0];
        var j :| 0 <= j < |b| && b[j] == a[0];
        assert RankLess(b[0], a[0]) && RankLess(a[0], b[0]);
        RankTransitive(a[0], b[0], a[0]);
      }
      assert forall x :: x in a[1..] <==> x in a && x != a[0] by {
        assert a == [a[0]] + a[1..];
        assert forall i :: 0 < i < |a| ==> a[i] != a[0];
      }
      assert forall x :: x in b[1..] <==> x in b && x != b[0] by {
        assert b == [b[0]] + b[1..];
        assert forall i :: 0 < i < |b| ==> b[i] != b[0];
      }
      DescendingUnique(a[1..], b[1..]);
      assert a == [a[0]] + a[1..] && b == [b[0]] + b[1..];
    } else {
      HeadIn(a);
      HeadIn(b);
    }
  }

  lemma HeadIn<T>(s: seq<T>)
    ensures |s| > 0 ==> s[0] in s
  {
  }
}
