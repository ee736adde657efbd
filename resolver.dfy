/**
 * The merge-scan resolver (`rip2func`): a cursor that only moves forward
 * walks the range table while the address strings are parsed one by one,
 * collecting each address under the name of the range that holds it.
 */
module Resolver {
  import opened Wrappers
  import opened Text
  import opened Order
  import opened Symbols

  /** `int(_kr, 16)` fails (Python's ValueError), or the cursor runs off the table (Python's IndexError). */
  datatype ResolveError = BadRip(rip: string) | RipNotFound(rip: string)

  /** An address resolved to the range at `index`. */
  datatype Hit = Hit(index: nat, addr: nat)

  /**
   * Where the inner loop stops for address `a` when the cursor stands at
   * `si`: the first range from `si` on that holds `a`, or `None` when the
   * cursor runs off the end.
   */
  function Scan(t: seq<Range>, si: nat, a: int): (j: Option<nat>)
    ensures j.Some? ==> si <= j.value < |t| && InRange(t[j.value], a)
    ensures j.Some? ==> forall k :: si <= k < j.value ==> !InRange(t[k], a)
    ensures j.None? ==> forall k :: si <= k < |t| ==> !InRange(t[k], a)
    decreases |t| - si
  {
    if si >= |t| then None
    else if InRange(t[si], a) then Some(si)
    else Scan(t, si + 1, a)
  }

  /** The hits of `rips` with the cursor starting at `si`; the first failure ends the scan. */
  function Cursor(t: seq<Range>, si: nat, rips: seq<string>): Result<seq<Hit>, ResolveError>
    decreases |rips|
  {
    if |rips| == 0 then Ok([])
    else
      match ParseHex(rips[0])
      case None => Err(BadRip(rips[0]))
      case Some(a) =>
        match Scan(t, si, a)
        case None => Err(RipNotFound(rips[0]))
        case Some(j) =>
          match Cursor(t, j, rips[1..])
          case Ok(hs) => Ok([Hit(j, a)] + hs)
          case Err(e) => Err(e)
  }

  /** The scan from the start of the table. */
  function Owners(t: seq<Range>, rips: seq<string>): Result<seq<Hit>, ResolveError> {
    Cursor(t, 0, rips)
  }

  predicate ValidHits(t: seq<Range>, hs: seq<Hit>) {
    forall k :: 0 <= k < |hs| ==> hs[k].index < |t|
  }

  /**
   * On success the scan resolves each address once and in order: hit k is
   * address k, parsed; it lies in the range the hit names; and the cursor
   * never moves back.
   */
  lemma {:induction false} CursorShape(t: seq<Range>, si: nat, rips: seq<string>)
    requires Cursor(t, si, rips).Ok?
    ensures var hs := Cursor(t, si, rips).value;
      && |hs| == |rips|
      && ValidHits(t, hs)
      && (forall k :: 0 <= k < |hs| ==> ParseHex(rips[k]) == Some(hs[k].addr))
      && (forall k :: 0 <= k < |hs| ==> InRange(t[hs[k].index], hs[k].addr))
      && (|hs| > 0 ==> si <= hs[0].index)
      && (forall k :: 0 < k < |hs| ==> hs[k - 1].index <= hs[k].index)
    decreases |rips|
  {
    if |rips| > 0 {
      var a := ParseHex(rips[0]).value;
      var j := Scan(t, si, a).value;
      CursorShape(t, j, rips[1..]);
      var hs := Cursor(t, j, rips[1..]).value;
      assert Cursor(t, si, rips).value == [Hit(j, a)] + hs;
      forall k | 0 < k < |rips| ensures ParseHex(rips[k]) == Some(([Hit(j, a)] + hs)[k].addr) {
        assert rips[1..][k - 1] == rips[k];
      }
    }
  }

  /** In a contiguous, ascending table an address below the current range is never found: the cursor runs off. */
  lemma ScanBelowFails(t: seq<Range>, si: nat, a: int)
    requires Contiguous(t) && Ascending(t)
    requires si < |t| && a < t[si].lo
    ensures Scan(t, si, a).None?
  {
    forall k | si < k < |t| ensures !InRange(t[k], a) {
      EndsBeforeLaterStarts(t, si, k);
    }
  }

  /** In a contiguous, ascending table an address between the current range's start and the table's end is found. */
  lemma ScanFinds(t: seq<Range>, si: nat, a: int)
    requires Contiguous(t) && Ascending(t)
    requires si < |t| && t[si].lo <= a < t[|t| - 1].hi
    ensures Scan(t, si, a).Some?
  {
    if si > 0 { EndsBeforeLaterStarts(t, 0, si); }
    CoveredOnce(t, a);
    var i :| 0 <= i < |t| && InRange(t[i], a);
    if i < si { EndsBeforeLaterStarts(t, i, si); }
  }

  /** The parsed addresses are non-decreasing and all lie between the table's first start and its end. */
  predicate SortedWithin(t: seq<Range>, rips: seq<string>)
    requires |t| > 0
  {
    && (forall k :: 0 <= k < |rips| ==> ParseHex(rips[k]).Some?)
    && (forall k :: 0 < k < |rips| ==> ParseHex(rips[k - 1]).value <= ParseHex(rips[k]).value)
    && (forall k :: 0 <= k < |rips| ==> t[0].lo <= ParseHex(rips[k]).value < t[|t| - 1].hi)
  }

  lemma {:induction false} CursorSucceeds(t: seq<Range>, si: nat, rips: seq<string>)
    requires Contiguous(t) && Ascending(t) && si < |t|
    requires SortedWithin(t, rips)
    requires |rips| > 0 ==> t[si].lo <= ParseHex(rips[0]).value
    ensures Cursor(t, si, rips).Ok?
    decreases |rips|
  {
    if |rips| > 0 {
      var a := ParseHex(rips[0]).value;
      ScanFinds(t, si, a);
      var j := Scan(t, si, a).value;
      var rest := rips[1..];
      assert forall k :: 0 <= k < |rest| ==> rest[k] == rips[k + 1];
      if |rest| > 0 {
        assert ParseHex(rest[0]).value >= a >= t[j].lo;
      }
      CursorSucceeds(t, j, rest);
    }
  }

  /**
   * Sorted addresses that the table covers always resolve: the forward-only
   * cursor never needs to go back (both invariants the scan depends on).
   */
  lemma OwnersSucceed(t: seq<Range>, rips: seq<string>)
    requires Contiguous(t) && Ascending(t) && |t| > 0
    requires SortedWithin(t, rips)
    ensures Owners(t, rips).Ok?
  {
    CursorSucceeds(t, 0, rips);
  }

  /** A range of a contiguous, ascending table lies between the table's first start and its end. */
  lemma WithinTable(t: seq<Range>, i: nat, a: int)
    requires Contiguous(t) && Ascending(t) && i < |t| && InRange(t[i], a)
    ensures t[0].lo <= a < t[|t| - 1].hi
  {
    if 0 < i { EndsBeforeLaterStarts(t, 0, i); }
    if i < |t| - 1 { EndsBeforeLaterStarts(t, i, |t| - 1); }
  }

  /**
   * The call succeeds only when every address lies between the table's
   * first start and its end: one outside makes it fail.
   */
  lemma OwnersWithinTable(t: seq<Range>, rips: seq<string>)
    requires Contiguous(t) && Ascending(t) && |t| > 0
    requires Owners(t, rips).Ok?
    ensures forall k :: 0 <= k < |rips| ==>
      ParseHex(rips[k]).Some? && t[0].lo <= ParseHex(rips[k]).value < t[|t| - 1].hi
  {
    CursorShape(t, 0, rips);
    var hs := Owners(t, rips).value;
    forall k | 0 <= k < |rips|
      ensures ParseHex(rips[k]).Some? && t[0].lo <= ParseHex(rips[k]).value < t[|t| - 1].hi
    {
      WithinTable(t, hs[k].index, hs[k].addr);
    }
  }

  /**
   * Callers sort addresses as text. For lower-case hex strings of one width
   * that is numeric order, so addresses the table covers resolve.
   */
  lemma SortedTextResolves(t: seq<Range>, rips: seq<string>, width: nat)
    requires Contiguous(t) && Ascending(t) && |t| > 0
    requires SortedLex(rips)
    requires forall k :: 0 <= k < |rips| ==>
      |rips[k]| == width > 0 && LowerHex(rips[k]) && t[0].lo <= HexOf(rips[k]) < t[|t| - 1].hi
    ensures Owners(t, rips).Ok?
  {
    forall k | 0 < k < |rips| ensures HexOf(rips[k - 1]) <= HexOf(rips[k]) {
      HexOrderIsLexOrder(rips[k - 1], rips[k]);
    }
    OwnersSucceed(t, rips);
  }

  // ---- ipbyname ----

  /** The names under which the hits are filed. */
  function NamesOf(t: seq<Range>, hs: seq<Hit>): set<string>
    requires ValidHits(t, hs)
  {
    set k | 0 <= k < |hs| :: t[hs[k].index].name
  }

  /** The addresses filed under `n`, in input order. */
  function Select(t: seq<Range>, hs: seq<Hit>, n: string): seq<nat>
    requires ValidHits(t, hs)
  {
    if |hs| == 0 then []
    else
      var h := hs[|hs| - 1];
      Select(t, hs[..|hs| - 1], n) + (if t[h.index].name == n then [h.addr] else [])
  }

  /** Every address filed under `n` lies in a range called `n`. */
  lemma {:induction false} SelectSound(t: seq<Range>, hs: seq<Hit>, n: string, a: nat)
    requires ValidHits(t, hs)
    requires forall k :: 0 <= k < |hs| ==> InRange(t[hs[k].index], hs[k].addr)
    requires a in Select(t, hs, n)
    ensures exists i :: 0 <= i < |t| && t[i].name == n && InRange(t[i], a)
  {
    var h := hs[|hs| - 1];
    if a !in Select(t, hs[..|hs| - 1], n) {
      assert t[h.index].name == n && a == h.addr;
    } else {
      SelectSound(t, hs[..|hs| - 1], n, a);
    }
  }

  /** The sum of the list lengths for the names in `order`. */
  function SumSelect(t: seq<Range>, hs: seq<Hit>, order: seq<string>): nat
    requires ValidHits(t, hs)
  {
    if |order| == 0 then 0
    else SumSelect(t, hs, order[..|order| - 1]) + |Select(t, hs, order[|order| - 1])|
  }

  lemma {:induction false} SumSelectSnoc(t: seq<Range>, hs: seq<Hit>, h: Hit, order: seq<string>)
    requires ValidHits(t, hs) && h.index < |t| && Distinct(order)
    ensures ValidHits(t, hs + [h])
    ensures SumSelect(t, hs + [h], order) ==
      SumSelect(t, hs, order) + (if t[h.index].name in order then 1 else 0)
  {
    assert (hs + [h])[..|hs|] == hs;
    assert ValidHits(t, hs + [h]) by {
      forall k | 0 <= k < |hs| + 1 ensures (hs + [h])[k].index < |t| {
        if k < |hs| { assert (hs + [h])[k] == hs[k]; }
      }
    }
    if |order| > 0 {
      var p := order[..|order| - 1];
      assert Distinct(p);
      SumSelectSnoc(t, hs, h, p);
      var n := order[|order| - 1];
      assert t[h.index].name in order <==> t[h.index].name in p || t[h.index].name == n by {
        assert order == p + [n];
      }
      if t[h.index].name == n {
        assert n !in p;
      }
    }
  }

  /**
   * Nothing is lost or counted twice: over names that are all different and
   * include every name filed, the list lengths add up to the number of hits.
   */
  lemma {:induction false} SumSelectTotal(t: seq<Range>, hs: seq<Hit>, order: seq<string>)
    requires ValidHits(t, hs) && Distinct(order)
    requires forall n :: n in NamesOf(t, hs) ==> n in order
    ensures SumSelect(t, hs, order) == |hs|
  {
    if |hs| == 0 {
      SumSelectEmpty(t, order);
    } else {
      var p, h := hs[..|hs| - 1], hs[|hs| - 1];
      assert hs == p + [h];
      SumSelectSnoc(t, p, h, order);
      assert t[h.index].name in NamesOf(t, hs);
      forall n | n in NamesOf(t, p) ensures n in order {
        var k :| 0 <= k < |p| && t[p[k].index].name == n;
        assert hs[k] == p[k];
      }
      SumSelectTotal(t, p, order);
    }
  }

  lemma {:induction false} SumSelectEmpty(t: seq<Range>, order: seq<string>)
    ensures SumSelect(t, [], order) == 0
  {
    if |order| > 0 { SumSelectEmpty(t, order[..|order| - 1]); }
  }

  function SumCounts(fin: seq<Rank>): nat {
    if |fin| == 0 then 0 else SumCounts(fin[..|fin| - 1]) + fin[|fin| - 1].0
  }

  // ---- rip2func ----

  /**
   * `rip2func`. On success `ipbyname` files every address, parsed, under
   * the name of the range that held it, as the scan specifies; `fin` holds
   * one `(count, name)` tuple per name, strictly descending, so equal counts
   * are ordered by name descending; and the counts add up to `len(rips)`.
   */
  method Rip2Func(rips: seq<string>, smap: seq<Range>)
    returns (r: Result<(seq<Rank>, map<string, seq<nat>>), ResolveError>)
    ensures Owners(smap, rips).Err? ==> r == Err(Owners(smap, rips).error)
    ensures Owners(smap, rips).Ok? ==> r.Ok?
    ensures r.Ok? ==> (Owners(smap, rips).Ok? &&
      var hs, fin, ip := Owners(smap, rips).value, r.value.0, r.value.1;
      && ValidHits(smap, hs)
      && ip.Keys == NamesOf(smap, hs)
      && (forall n :: n in ip ==> ip[n] == Select(smap, hs, n))
      && StrictlyDescending(fin)
      && (forall x :: x in fin <==> x.1 in ip && x.0 == |ip[x.1]|)
      && |fin| == |ip.Keys|
      && SumCounts(fin) == |rips|)
  {
    var ipbyname: map<string, seq<nat>> := map[];
    var si: nat := 0;
    ghost var hs: seq<Hit> := [];
    assert rips[0..] == rips;
    PrependNothing(Owners(smap, rips));
    for i := 0 to |rips|
      invariant Owners(smap, rips) == Prepend(hs, Cursor(smap, si, rips[i..]))
      invariant |hs| == i && ValidHits(smap, hs) && si <= |smap|
      invariant ipbyname.Keys == NamesOf(smap, hs)
      invariant forall n :: n in ipbyname ==> ipbyname[n] == Select(smap, hs, n)
    {
      CursorAt(smap, si, rips, i);
      var kr := ParseHex(rips[i]);
      if kr.None? {
        return Err(BadRip(rips[i]));
      }
      var a := kr.value;
      ghost var si0 := si;
      var found := false;
      while true
        invariant si0 <= si <= |smap|
        invariant Scan(smap, si, a) == Scan(smap, si0, a)
        decreases |smap| - si
      {
        if si >= |smap| {
          // smap[si] raises IndexError: the cursor has run off the table
          return Err(RipNotFound(rips[i]));
        }
        var s := smap[si];
        if s.lo <= a < s.hi {
          assert Scan(smap, si, a) == Some(si);
          FileStep(smap, hs, Hit(si, a), ipbyname);
          var n := s.name;
          if n !in ipbyname {
            ipbyname := ipbyname[n := []];
          }
          ipbyname := ipbyname[n := ipbyname[n] + [a]];
          found := true;
          break;
        }
        si := si + 1;
      }
      if !found {
        // the loop above is left only through the break, so the ValueError is never raised
        assert false;
      }
      PrependStep(hs, Hit(si, a), Cursor(smap, si, rips[i + 1..]));
      hs := hs + [Hit(si, a)];
    }
    assert rips[|rips|..] == [] && hs + [] == hs;
    assert Owners(smap, rips) == Ok(hs);
    var fin := RankByCount(ipbyname);
    RankedTotal(smap, hs, ipbyname, fin);
    r := Ok((fin, ipbyname));
  }

  /**
   * The tail of `rip2func`: one `(count, name)` tuple per name, sorted and
   * then reversed, so strictly descending by count and then by name.
   */
  method RankByCount(ip: map<string, seq<nat>>) returns (fin: seq<Rank>)
    ensures StrictlyDescending(fin)
    ensures forall x :: x in fin <==> x.1 in ip && x.0 == |ip[x.1]|
    ensures |fin| == |ip.Keys|
  {
    fin := [];
    var keys := ip.Keys;
    ghost var done: set<string> := {};
    while keys != {}
      invariant keys <= ip.Keys
      invariant forall n :: n in done <==> n in ip && n !in keys
      invariant |fin| + |keys| == |ip.Keys|
      invariant forall x :: x in fin <==> x.1 in done && x.0 == |ip[x.1]|
      invariant Distinct(fin)
      decreases keys
    {
      var f :| f in keys;
      fin := fin + [(|ip[f]|, f)];
      done := done + {f};
      keys := keys - {f};
    }
    var unsorted := fin;
    fin := SortRanks(fin);
    fin := Reverse(fin);
    SortThenReverse(unsorted);
    assert |fin| == |unsorted| by {
      assert |multiset(fin)| == |multiset(unsorted)|;
    }
    forall x ensures x in fin <==> x in unsorted {
      assert x in fin <==> x in multiset(unsorted);
    }
  }

  function NamesIn(fin: seq<Rank>): (ns: seq<string>)
    ensures |ns| == |fin| && forall k :: 0 <= k < |fin| ==> ns[k] == fin[k].1
  {
    seq(|fin|, k requires 0 <= k < |fin| => fin[k].1)
  }

  lemma {:induction false} SumCountsSelect(t: seq<Range>, hs: seq<Hit>, fin: seq<Rank>)
    requires ValidHits(t, hs)
    requires forall k :: 0 <= k < |fin| ==> fin[k].0 == |Select(t, hs, fin[k].1)|
    ensures SumCounts(fin) == SumSelect(t, hs, NamesIn(fin))
  {
    if |fin| > 0 {
      var p := fin[..|fin| - 1];
      assert NamesIn(fin)[..|fin| - 1] == NamesIn(p);
      SumCountsSelect(t, hs, p);
    }
  }

  /**
   * When `fin` lists each name of `ipbyname` once with its count, the
   * counts add up to the number of addresses resolved: none is lost or
   * counted twice.
   */
  lemma RankedTotal(t: seq<Range>, hs: seq<Hit>, ip: map<string, seq<nat>>, fin: seq<Rank>)
    requires ValidHits(t, hs)
    requires ip.Keys == NamesOf(t, hs)
    requires forall n :: n in ip ==> ip[n] == Select(t, hs, n)
    requires StrictlyDescending(fin)
    requires forall x :: x in fin <==> x.1 in ip && x.0 == |ip[x.1]|
    ensures SumCounts(fin) == |hs|
  {
    var ns := NamesIn(fin);
    forall i, j | 0 <= i < j < |ns| ensures ns[i] != ns[j] {
      assert fin[i] in fin && fin[j] in fin;
      RankIrreflexive();
    }
    forall k | 0 <= k < |fin| ensures fin[k].0 == |Select(t, hs, fin[k].1)| {
      assert fin[k] in fin;
    }
    SumCountsSelect(t, hs, fin);
    forall n | n in NamesOf(t, hs) ensures n in ns {
      assert (|ip[n]|, n) in fin;
    }
    SumSelectTotal(t, hs, ns);
  }

  function Prepend(hs: seq<Hit>, rest: Result<seq<Hit>, ResolveError>): Result<seq<Hit>, ResolveError> {
    match rest
    case Ok(more) => Ok(hs + more)
    case Err(e) => Err(e)
  }

  /** One step of the scan, from address i on with the cursor at si. */
  lemma CursorAt(t: seq<Range>, si: nat, rips: seq<string>, i: nat)
    requires i < |rips|
    ensures ParseHex(rips[i]).None? ==> Cursor(t, si, rips[i..]) == Err(BadRip(rips[i]))
    ensures ParseHex(rips[i]).Some? && Scan(t, si, ParseHex(rips[i]).value).None? ==>
      Cursor(t, si, rips[i..]) == Err(RipNotFound(rips[i]))
    ensures ParseHex(rips[i]).Some? && Scan(t, si, ParseHex(rips[i]).value).Some? ==>
      var a := ParseHex(rips[i]).value;
      var j := Scan(t, si, a).value;
      Cursor(t, si, rips[i..]) == Prepend([Hit(j, a)], Cursor(t, j, rips[i + 1..]))
  {
    assert rips[i..][0] == rips[i] && rips[i..][1..] == rips[i + 1..];
  }

  lemma PrependStep(hs: seq<Hit>, h: Hit, rest: Result<seq<Hit>, ResolveError>)
    ensures Prepend(hs, Prepend([h], rest)) == Prepend(hs + [h], rest)
  {
    if rest.Ok? { assert hs + ([h] + rest.value) == hs + [h] + rest.value; }
  }

  lemma PrependNothing(rest: Result<seq<Hit>, ResolveError>)
    ensures Prepend([], rest) == rest
  {
    if rest.Ok? { assert [] + rest.value == rest.value; }
  }

  /** Filing one more hit in `ipbyname` keeps it equal to the selection of all hits so far. */
  lemma FileStep(t: seq<Range>, hs: seq<Hit>, h: Hit, ip: map<string, seq<nat>>)
    requires ValidHits(t, hs) && h.index < |t|
    requires ip.Keys == NamesOf(t, hs)
    requires forall n :: n in ip ==> ip[n] == Select(t, hs, n)
    ensures ValidHits(t, hs + [h])
    ensures var n := t[h.index].name;
      var ip' := ip[n := (if n in ip then ip[n] else []) + [h.addr]];
      && ip'.Keys == NamesOf(t, hs + [h])
      && forall m :: m in ip' ==> ip'[m] == Select(t, hs + [h], m)
  {
    var hs' := hs + [h];
    assert hs'[..|hs|] == hs;
    var n := t[h.index].name;
    assert NamesOf(t, hs') == NamesOf(t, hs) + {n} by {
      forall m | m in NamesOf(t, hs') ensures m in NamesOf(t, hs) + {n} {
        var k :| 0 <= k < |hs'| && t[hs'[k].index].name == m;
        if k < |hs| { assert hs[k] == hs'[k]; }
      }
      forall m | m in NamesOf(t, hs) ensures m in NamesOf(t, hs') {
        var k :| 0 <= k < |hs| && t[hs[k].index].name == m;
        assert hs'[k] == hs[k];
      }
      assert hs'[|hs|] == h;
    }
    if n !in ip {
      SelectAbsent(t, hs, n);
    }
  }

  lemma SelectAbsent(t: seq<Range>, hs: seq<Hit>, n: string)
    requires ValidHits(t, hs) && n !in NamesOf(t, hs)
    ensures Select(t, hs, n) == []
  {
    if |hs| > 0 {
      var p := hs[..|hs| - 1];
      forall m | m in NamesOf(t, p) ensures m in NamesOf(t, hs) {
        var k :| 0 <= k < |p| && t[p[k].index].name == m;
        assert hs[k] == p[k];
      }
      SelectAbsent(t, p, n);
      assert t[hs[|hs| - 1].index].name in NamesOf(t, hs);
    }
  }
}
