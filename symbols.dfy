/**
 * The symbol range table: the three-field filter over `nm -C | sort`
 * output (`getsmap`) and the (name, start, next start) ranges built from
 * it (`getsmap2`). Running `nm` and `sort` is outside the model; it starts
 * from the lines they print.
 */
module Symbols {
  import opened Wrappers
  import opened Text
  import opened Order

  /** An `nm` line with exactly three fields: address, symbol type, name. */
  datatype NmEntry = NmEntry(addr: string, kind: string, name: string)

  /** One `getsmap2` entry: a symbol and the half-open address range [lo, hi) it owns. */
  datatype Range = Range(name: string, lo: int, hi: int)

  /** The upper end of the last range. */
  const MaxAddress: int := 0x7fff_ffff_ffff_ffff

  predicate InRange(r: Range, a: int) {
    r.lo <= a < r.hi
  }

  /** An `nm` line is kept exactly when it splits into three fields. */
  function EntryOf(l: string): (e: Option<NmEntry>)
    ensures e.Some? <==> |Fields(l)| == 3
    ensures e.Some? ==> Fields(l) == [e.value.addr, e.value.kind, e.value.name]
  {
    var f := Fields(l);
    if |f| == 3 then Some(NmEntry(f[0], f[1], f[2])) else None
  }

  /** The line `nm` prints for an entry, three words joined by blanks, is kept as that entry. */
  lemma EntryOfLine(e: NmEntry)
    requires e.addr != [] && NoSpace(e.addr)
    requires e.kind != [] && NoSpace(e.kind)
    requires e.name != [] && NoSpace(e.name)
    ensures EntryOf(JoinBlank([e.addr, e.kind, e.name])) == Some(e)
  {
    FieldsOfJoin([e.addr, e.kind, e.name]);
  }

  /** The entries of the kept lines, in line order. */
  function SymbolEntries(lines: seq<string>): seq<NmEntry> {
    if |lines| == 0 then []
    else
      var e := EntryOf(lines[|lines| - 1]);
      SymbolEntries(lines[..|lines| - 1]) + (if e.Some? then [e.value] else [])
  }

  /**
   * The filter loop of `getsmap`. Stripping each line and skipping empty
   * ones changes nothing here: an empty or blank line has no fields, and
   * surrounding blanks add none.
   */
  method GetSymbolMap(lines: seq<string>) returns (ret: seq<NmEntry>)
    ensures ret == SymbolEntries(lines)
  {
    ret := [];
    for i := 0 to |lines|
      invariant ret == SymbolEntries(lines[..i])
    {
      assert lines[..i + 1][..i] == lines[..i];
      var f := Fields(lines[i]);
      if |f| != 3 {
        continue;
      }
      ret := ret + [NmEntry(f[0], f[1], f[2])];
    }
    assert lines[..|lines|] == lines;
  }

  /** Exactly the three-field lines are kept. */
  lemma {:induction false} SymbolEntriesKeepThreeFields(lines: seq<string>, e: NmEntry)
    ensures e in SymbolEntries(lines) <==> exists i :: 0 <= i < |lines| && EntryOf(lines[i]) == Some(e)
  {
    if |lines| > 0 {
      var p := lines[..|lines| - 1];
      SymbolEntriesKeepThreeFields(p, e);
      if exists i :: 0 <= i < |p| && EntryOf(p[i]) == Some(e) {
        var i :| 0 <= i < |p| && EntryOf(p[i]) == Some(e);
        assert lines[i] == p[i];
      }
      if exists i :: 0 <= i < |lines| && EntryOf(lines[i]) == Some(e) {
        var i :| 0 <= i < |lines| && EntryOf(lines[i]) == Some(e);
        if i < |p| { assert p[i] == lines[i]; }
      }
    }
  }

  /** The filter keeps line order: filtering a concatenation concatenates the results. */
  lemma {:induction false} SymbolEntriesAppend(a: seq<string>, b: seq<string>)
    ensures SymbolEntries(a + b) == SymbolEntries(a) + SymbolEntries(b)
  {
    if |b| == 0 {
      assert a + b == a;
    } else {
      var n := |b| - 1;
      assert (a + b)[..|a| + n] == a + b[..n];
      assert (a + b)[|a| + n] == b[n];
      SymbolEntriesAppend(a, b[..n]);
    }
  }

  // ---- getsmap2 ----

  predicate GoodAddr(e: NmEntry) {
    ParseHex(e.addr).Some?
  }

  /** The index of the first entry whose address is not hex, or the length when there is none. */
  function FirstBadAddr(smap: seq<NmEntry>): (k: nat)
    ensures k <= |smap|
    ensures forall j :: 0 <= j < k ==> GoodAddr(smap[j])
    ensures k < |smap| ==> !GoodAddr(smap[k])
  {
    if |smap| == 0 then 0
    else
      var k := FirstBadAddr(smap[..|smap| - 1]);
      if k < |smap| - 1 then k
      else if GoodAddr(smap[|smap| - 1]) then |smap| else |smap| - 1
  }

  function Addr(e: NmEntry): nat
    requires GoodAddr(e)
  {
    ParseHex(e.addr).value
  }

  /** Range i runs from symbol i's address to symbol i + 1's; the last one to MaxAddress. */
  function RangeTable(smap: seq<NmEntry>): (t: seq<Range>)
    requires FirstBadAddr(smap) == |smap|
    ensures |t| == |smap|
  {
    seq(|smap|, i requires 0 <= i < |smap| =>
      Range(smap[i].name, Addr(smap[i]), if i < |smap| - 1 then Addr(smap[i + 1]) else MaxAddress))
  }

  /** An address that `int(_, 16)` rejects. */
  datatype SymbolError = BadSymbolAddress(addr: string)

  /** What `getsmap2` returns for the kept entries. */
  function SymbolRanges(smap: seq<NmEntry>): Result<seq<Range>, SymbolError> {
    var k := FirstBadAddr(smap);
    if k == |smap| then Ok(RangeTable(smap)) else Err(BadSymbolAddress(smap[k].addr))
  }

  /** `getsmap2`'s loop over the entries. */
  method GetSmap2(smap: seq<NmEntry>) returns (r: Result<seq<Range>, SymbolError>)
    ensures r == SymbolRanges(smap)
  {
    var ret: seq<Range> := [];
    for i := 0 to |smap|
      invariant |ret| == i
      invariant forall j :: 0 <= j < i ==> GoodAddr(smap[j])
      invariant 0 < i < |smap| ==> GoodAddr(smap[i])
      invariant forall j :: 0 <= j < i ==>
        ret[j] == Range(smap[j].name, Addr(smap[j]), if j < |smap| - 1 then Addr(smap[j + 1]) else MaxAddress)
    {
      var s := smap[i];
      var r2 := ParseHex(s.addr);
      if r2.None? {
        FirstBadIs(smap, i);
        return Err(BadSymbolAddress(s.addr));
      }
      var r3 := MaxAddress;
      if i != |smap| - 1 {
        var next := ParseHex(smap[i + 1].addr);
        if next.None? {
          FirstBadIs(smap, i + 1);
          return Err(BadSymbolAddress(smap[i + 1].addr));
        }
        r3 := next.value;
      }
      ret := ret + [Range(s.name, r2.value, r3)];
    }
    FirstBadIs(smap, |smap|);
    assert ret == RangeTable(smap);
    r := Ok(ret);
  }

  /** The first bad address is the one every earlier entry passes and this one fails. */
  lemma FirstBadIs(smap: seq<NmEntry>, k: nat)
    requires k <= |smap|
    requires forall j :: 0 <= j < k ==> GoodAddr(smap[j])
    requires k < |smap| ==> !GoodAddr(smap[k])
    ensures FirstBadAddr(smap) == k
  {
  }

  // ---- properties of the table ----

  /** Each range ends where the next begins. */
  predicate Contiguous(t: seq<Range>) {
    forall i :: 0 < i < |t| ==> t[i - 1].hi == t[i].lo
  }

  /** No range is reversed. */
  predicate Ascending(t: seq<Range>) {
    forall i :: 0 <= i < |t| ==> t[i].lo <= t[i].hi
  }

  /** The symbol addresses are non-decreasing and no larger than MaxAddress. */
  predicate SortedByAddress(smap: seq<NmEntry>)
    requires FirstBadAddr(smap) == |smap|
  {
    && (forall i :: 0 < i < |smap| ==> Addr(smap[i - 1]) <= Addr(smap[i]))
    && (|smap| > 0 ==> Addr(smap[|smap| - 1]) <= MaxAddress)
  }

  /**
   * The table gives one range per symbol, ranges follow one another without
   * gap or overlap, the last ends at MaxAddress, and when the symbols are
   * sorted by address no range is reversed.
   */
  lemma RangeTableShape(smap: seq<NmEntry>)
    requires FirstBadAddr(smap) == |smap|
    ensures var t := RangeTable(smap);
      && (forall i :: 0 <= i < |t| ==> t[i].name == smap[i].name && t[i].lo == Addr(smap[i]))
      && Contiguous(t)
      && (|t| > 0 ==> t[|t| - 1].hi == MaxAddress)
      && (SortedByAddress(smap) ==> Ascending(t))
  {
    RangeTableEntry(smap);
    if SortedByAddress(smap) {
      var t := RangeTable(smap);
      forall i | 0 <= i < |t| ensures t[i].lo <= t[i].hi {
        if i < |t| - 1 {
          assert Addr(smap[i]) <= Addr(smap[i + 1]);
        }
      }
    }
  }

  /** Range i runs from symbol i's address to the next symbol's address, or to MaxAddress for the last. */
  lemma RangeTableEntry(smap: seq<NmEntry>)
    requires FirstBadAddr(smap) == |smap|
    ensures var t := RangeTable(smap);
      forall i :: 0 <= i < |t| ==>
        && t[i].name == smap[i].name && t[i].lo == Addr(smap[i])
        && t[i].hi == (if i < |t| - 1 then Addr(smap[i + 1]) else MaxAddress)
  {
    var t := RangeTable(smap);
    forall i | 0 <= i < |t|
      ensures t[i].name == smap[i].name && t[i].lo == Addr(smap[i])
      ensures t[i].hi == (if i < |t| - 1 then Addr(smap[i + 1]) else MaxAddress)
    {
      assert t[i] == Range(smap[i].name, Addr(smap[i]), if i < |smap| - 1 then Addr(smap[i + 1]) else MaxAddress);
    }
  }

  /** In a contiguous, ascending table a range ends no later than any later range starts. */
  lemma {:induction false} EndsBeforeLaterStarts(t: seq<Range>, i: nat, j: nat)
    requires Contiguous(t) && Ascending(t)
    requires i < j < |t|
    ensures t[i].hi <= t[j].lo
    decreases j - i
  {
    if i + 1 < j {
      EndsBeforeLaterStarts(t, i + 1, j);
    }
  }

  /**
   * A contiguous, ascending table covers [first start, last end) exactly
   * once: every address there lies in one range and in no other.
   */
  lemma {:induction false} CoveredOnce(t: seq<Range>, a: int)
    requires Contiguous(t) && Ascending(t) && |t| > 0
    requires t[0].lo <= a < t[|t| - 1].hi
    ensures exists i :: 0 <= i < |t| && InRange(t[i], a)
    ensures forall i, j :: 0 <= i < |t| && 0 <= j < |t| && InRange(t[i], a) && InRange(t[j], a) ==> i == j
  {
    if |t| > 1 && a >= t[0].hi {
      var u := t[1..];
      assert u[0].lo == t[0].hi;
      CoveredOnce(u, a);
      var k :| 0 <= k < |u| && InRange(u[k], a);
      assert InRange(t[k + 1], a);
    } else {
      assert InRange(t[0], a) by {
        if |t| == 1 { assert t[0].hi == t[|t| - 1].hi; }
      }
    }
    forall i, j | 0 <= i < |t| && 0 <= j < |t| && InRange(t[i], a) && InRange(t[j], a) ensures i == j {
      if i < j { EndsBeforeLaterStarts(t, i, j); }
      if j < i { EndsBeforeLaterStarts(t, j, i); }
    }
  }

  /** An address outside [first start, last end) lies in no range of a contiguous, ascending table. */
  lemma OutsideCovered(t: seq<Range>, a: int)
    requires Contiguous(t) && Ascending(t) && |t| > 0
    requires a < t[0].lo || a >= t[|t| - 1].hi
    ensures forall i :: 0 <= i < |t| ==> !InRange(t[i], a)
  {
    forall i | 0 <= i < |t| ensures !InRange(t[i], a) {
      if 0 < i { EndsBeforeLaterStarts(t, 0, i); }
      if i < |t| - 1 { EndsBeforeLaterStarts(t, i, |t| - 1); }
    }
  }
}
