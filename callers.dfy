/**
 * `callers`: resolve every kernel frame of every backtrace to its function,
 * build the call graph, and rank the callers whose frames make up more than
 * one percent of the samples, each with its callees.
 */
module Callers {
  import opened Wrappers
  import opened Text
  import opened Order
  import opened Profile
  import opened AddressSpace
  import opened Symbols
  import opened Resolver
  import opened CallGraph

  /**
   * What `callers` computes: the address-to-function map, the top callers
   * as `(samps, name)` and, for each of them in the same order, its callees
   * as `(times, name)`.
   */
  datatype Report = Report(rip2syms: map<nat, string>, top: seq<Rank>, callees: seq<seq<Rank>>)

  /** `rips = []; for bt in bts: rips += bt` */
  method Concat(bts: seq<seq<string>>) returns (rips: seq<string>)
    ensures rips == Flatten(bts)
  {
    rips := [];
    for b := 0 to |bts|
      invariant rips == Flatten(bts[..b])
    {
      assert bts[..b + 1][..b] == bts[..b];
      rips := rips + bts[b];
    }
    assert bts[..|bts|] == bts;
  }

  /** Every frame of every backtrace is in the concatenation. */
  lemma {:induction false} FlattenHas(rs: seq<seq<string>>, b: nat, i: nat)
    requires b < |rs| && i < |rs[b]|
    ensures rs[b][i] in Flatten(rs)
  {
    var p := rs[..|rs| - 1];
    if b < |rs| - 1 {
      assert rs[b] == p[b];
      FlattenHas(p, b, i);
    } else {
      assert Flatten(rs) == Flatten(p) + rs[b];
      assert rs[b][i] == Flatten(rs)[|Flatten(p)| + i];
    }
  }

  /** The kernel addresses `rip2func` is given: all frames, sorted as text, user ones dropped. */
  function KernelAddresses(bts: seq<seq<string>>): seq<string> {
    KernelRips(SortLex(Flatten(bts)))
  }

  /** Every element of the concatenation is a frame of some backtrace. */
  lemma {:induction false} FlattenMember(rs: seq<seq<string>>, x: string)
    requires x in Flatten(rs)
    ensures exists b, i :: 0 <= b < |rs| && 0 <= i < |rs[b]| && rs[b][i] == x
  {
    var p, last := rs[..|rs| - 1], rs[|rs| - 1];
    if x in Flatten(p) {
      FlattenMember(p, x);
      var b, i :| 0 <= b < |p| && 0 <= i < |p[b]| && p[b][i] == x;
      assert rs[b] == p[b];
    } else {
      var k :| 0 <= k < |last| && last[k] == x;
    }
  }

  /** Dropping the user addresses from sorted text keeps it sorted. */
  lemma {:induction false} KernelRipsSorted(s: seq<string>)
    requires SortedLex(s)
    ensures SortedLex(KernelRips(s))
  {
    if |s| > 0 {
      var p, r := s[..|s| - 1], s[|s| - 1];
      assert SortedLex(p) by {
        forall i | 0 < i < |p| ensures LexLeq(p[i - 1], p[i]) { assert p[i - 1] == s[i - 1] && p[i] == s[i]; }
      }
      KernelRipsSorted(p);
      var kp := KernelRips(p);
      if !IsUser(r) && |kp| > 0 {
        var y := kp[|kp| - 1];
        PartitionMembers(p, y);
        var j :| 0 <= j < |p| && p[j] == y;
        SortedLexPairwise(s, j, |s| - 1);
        assert KernelRips(s) == kp + [r];
      }
    }
  }

  /**
   * `callers` sorts all frames as text before handing the kernel ones to
   * `rip2func`. When every kernel frame is a lower-case hex string of one
   * width inside the table's span, that text order is numeric order and
   * the resolver succeeds.
   */
  lemma KernelAddressesResolve(smap: seq<Range>, bts: seq<seq<string>>, width: nat)
    requires Contiguous(smap) && Ascending(smap) && |smap| > 0
    requires forall b, i :: 0 <= b < |bts| && 0 <= i < |bts[b]| && !IsUser(bts[b][i]) ==>
      |bts[b][i]| == width > 0 && LowerHex(bts[b][i]) && smap[0].lo <= HexOf(bts[b][i]) < smap[|smap| - 1].hi
    ensures SortedLex(KernelAddresses(bts))
    ensures Owners(smap, KernelAddresses(bts)).Ok?
  {
    var all := Flatten(bts);
    var sorted := SortLex(all);
    var ks := KernelRips(sorted);
    KernelRipsSorted(sorted);
    forall k | 0 <= k < |ks|
      ensures |ks[k]| == width > 0 && LowerHex(ks[k]) && smap[0].lo <= HexOf(ks[k]) < smap[|smap| - 1].hi
    {
      var x := ks[k];
      PartitionMembers(sorted, x);
      assert x in multiset(sorted);
      assert x in all;
      FlattenMember(bts, x);
    }
    SortedTextResolves(smap, ks, width);
  }

  /**
   * `rip2syms[rip] = func` for every address `rip` listed under `func`. The
   * dictionary's iteration order is left open; whatever it is, each address
   * listed maps to a function that lists it.
   */
  method InvertIndex(ip: map<string, seq<nat>>) returns (rip2syms: map<nat, string>)
    ensures forall a :: a in rip2syms <==> exists n :: n in ip && a in ip[n]
    ensures forall a :: a in rip2syms ==> rip2syms[a] in ip && a in ip[rip2syms[a]]
  {
    rip2syms := map[];
    var keys := ip.Keys;
    while keys != {}
      invariant keys <= ip.Keys
      invariant forall a :: a in rip2syms <==> exists n :: n in ip && n !in keys && a in ip[n]
      invariant forall a :: a in rip2syms ==> rip2syms[a] in ip && a in ip[rip2syms[a]]
      decreases keys
    {
      var func :| func in keys;
      var frips := ip[func];
      for j := 0 to |frips|
        invariant forall a :: a in rip2syms <==>
          (exists n :: n in ip && n !in keys && a in ip[n]) || a in frips[..j]
        invariant forall a :: a in rip2syms ==> rip2syms[a] in ip && a in ip[rip2syms[a]]
      {
        assert frips[..j + 1] == frips[..j] + [frips[j]];
        rip2syms := rip2syms[frips[j] := func];
      }
      assert frips[..|frips|] == frips;
      keys := keys - {func};
    }
  }

  /** A node of a valid graph is the one filed under its name. */
  lemma NodeNamed(g: Graph, c: GNode)
    requires g.Valid() && c in g.nodes.Values
    ensures c.name in g.nodes && g.nodes[c.name] == c
  {
    var k :| k in g.nodes && g.nodes[k] == c;
  }

  /**
   * `topc`: the nodes sorted by `samps`, largest first, keeping those whose
   * `frac = samps / len(bts)` exceeds 0.01, which is `100 * samps > len(bts)`.
   * Equal counts are ordered by name, descending.
   */
  method TopCallers(g: Graph, nsamp: nat) returns (top: seq<Rank>)
    requires g.Valid()
    ensures StrictlyDescending(top)
    ensures forall x :: x in top <==> x.1 in g.nodes && x.0 == g.SampsOf(x.1) && 100 * x.0 > nsamp
  {
    var cand: seq<Rank> := [];
    var keys := g.nodes.Keys;
    ghost var done: set<string> := {};
    while keys != {}
      invariant keys <= g.nodes.Keys
      invariant forall n :: n in done <==> n in g.nodes && n !in keys
      invariant forall x :: x in cand <==> x.1 in done && x.0 == g.SampsOf(x.1) && 100 * x.0 > nsamp
      invariant Distinct(cand)
      decreases keys
    {
      var f :| f in keys;
      var node := g.nodes[f];
      if 100 * node.samps > nsamp {
        cand := cand + [(node.samps, f)];
      }
      done := done + {f};
      keys := keys - {f};
    }
    top := SortRanks(cand);
    top := Reverse(top);
    SortThenReverse(cand);
    forall x ensures x in top <==> x in cand {
      assert x in top <==> x in multiset(cand);
    }
  }

  /**
   * The callees of node `m`, sorted by `c.frac * times / c.samps`, largest
   * first. That key is `times / len(bts)`, so the order is by `times`;
   * equal counts are ordered by name, descending.
   */
  method CalleesOf(g: Graph, m: string) returns (cs: seq<Rank>)
    requires g.Valid() && m in g.nodes
    ensures StrictlyDescending(cs)
    ensures forall y :: y in cs <==> g.EdgeOf(m, y.1) > 0 && y.0 == g.EdgeOf(m, y.1)
  {
    var x := g.nodes[m];
    var cand: seq<Rank> := [];
    var keys := x.cees.Keys;
    while keys != {}
      invariant keys <= x.cees.Keys
      invariant forall y :: y in cand <==> exists c :: c in x.cees && c !in keys && y == (x.cees[c], c.name)
      invariant forall i, j :: 0 <= i < j < |cand| ==> cand[i].1 != cand[j].1
      decreases keys
    {
      var c :| c in keys;
      forall i | 0 <= i < |cand| ensures cand[i].1 != c.name {
        assert cand[i] in cand;
        var c' :| c' in x.cees && c' !in keys && cand[i] == (x.cees[c'], c'.name);
        NodeNamed(g, c);
        NodeNamed(g, c');
      }
      cand := cand + [(x.cees[c], c.name)];
      keys := keys - {c};
    }
    assert Distinct(cand);
    cs := SortRanks(cand);
    cs := Reverse(cs);
    SortThenReverse(cand);
    forall y ensures y in cs <==> g.EdgeOf(m, y.1) > 0 && y.0 == g.EdgeOf(m, y.1) {
      assert y in cs <==> y in multiset(cand);
      if y in cand {
        var c :| c in x.cees && y == (x.cees[c], c.name);
        NodeNamed(g, c);
      }
      if g.EdgeOf(m, y.1) > 0 && y.0 == g.EdgeOf(m, y.1) {
        var c := g.nodes[y.1];
        assert c in x.cees && y == (x.cees[c], c.name);
      }
    }
  }

  /** The callee list of each top caller, in the order of `topc`. */
  method CalleeLists(g: Graph, top: seq<Rank>) returns (callees: seq<seq<Rank>>)
    requires g.Valid() && forall k :: 0 <= k < |top| ==> top[k].1 in g.nodes
    ensures |callees| == |top|
    ensures forall k :: 0 <= k < |top| ==> StrictlyDescending(callees[k])
    ensures forall k, y :: 0 <= k < |top| ==>
      (y in callees[k] <==> g.EdgeOf(top[k].1, y.1) > 0 && y.0 == g.EdgeOf(top[k].1, y.1))
  {
    callees := [];
    for k := 0 to |top|
      invariant |callees| == k
      invariant forall j :: 0 <= j < k ==> StrictlyDescending(callees[j])
      invariant forall j, y :: 0 <= j < k ==>
        (y in callees[j] <==> g.EdgeOf(top[j].1, y.1) > 0 && y.0 == g.EdgeOf(top[j].1, y.1))
    {
      var cs := CalleesOf(g, top[k].1);
      callees := callees + [cs];
    }
  }

  /**
   * The two rankings `callers` prints, from a graph whose counts are those
   * of the named backtraces `ns`.
   */
  method Rankings(g: Graph, nsamp: nat, ghost ns: seq<seq<string>>) returns (top: seq<Rank>, callees: seq<seq<Rank>>)
    requires g.Valid()
    requires forall n :: n in g.nodes <==> FrameCount(ns, n) > 0
    requires forall n :: g.SampsOf(n) == FrameCount(ns, n)
    requires forall m, n :: g.EdgeOf(m, n) == CallCount(ns, m, n)
    ensures StrictlyDescending(top)
    ensures forall x :: x in top <==> FrameCount(ns, x.1) > 0 && x.0 == FrameCount(ns, x.1) && 100 * x.0 > nsamp
    ensures |callees| == |top|
    ensures forall k :: 0 <= k < |top| ==> StrictlyDescending(callees[k])
    ensures forall k, y :: 0 <= k < |top| ==>
      (y in callees[k] <==> CallCount(ns, top[k].1, y.1) > 0 && y.0 == CallCount(ns, top[k].1, y.1))
  {
    top := TopCallers(g, nsamp);
    forall k | 0 <= k < |top| ensures top[k].1 in g.nodes {
      assert top[k] in top;
    }
    callees := CalleeLists(g, top);
  }

  /** Hit k's address is among those filed under its range's name. */
  lemma {:induction false} SelectHas(t: seq<Range>, hs: seq<Hit>, k: nat)
    requires ValidHits(t, hs) && k < |hs|
    ensures hs[k].addr in Select(t, hs, t[hs[k].index].name)
  {
    var p := hs[..|hs| - 1];
    if k < |hs| - 1 {
      assert p[k] == hs[k];
      SelectHas(t, p, k);
    }
  }

  /**
   * Once `rip2func` succeeds on the kernel addresses, `nodebyrip` finds
   * every frame: user frames go to `USER`, and every kernel frame parses
   * and is a key of `rip2syms`, so neither ValueError nor KeyError is raised.
   */
  lemma KernelFramesResolve(bts: seq<seq<string>>, smap: seq<Range>, hs: seq<Hit>,
                            ip: map<string, seq<nat>>, rip2syms: map<nat, string>)
    requires Owners(smap, KernelAddresses(bts)) == Ok(hs)
    requires ValidHits(smap, hs) && ip.Keys == NamesOf(smap, hs)
    requires forall n :: n in ip ==> ip[n] == Select(smap, hs, n)
    requires forall a :: a in rip2syms <==> exists n :: n in ip && a in ip[n]
    ensures Resolves(rip2syms, bts)
  {
    var sorted := SortLex(Flatten(bts));
    var krips := KernelAddresses(bts);
    CursorShape(smap, 0, krips);
    forall b, i | 0 <= b < |bts| && 0 <= i < |bts[b]| ensures FrameName(rip2syms, bts[b][i]).Ok? {
      var f := bts[b][i];
      if !IsUser(f) {
        FlattenHas(bts, b, i);
        assert f in multiset(sorted);
        PartitionMembers(sorted, f);
        var k :| 0 <= k < |krips| && krips[k] == f;
        SelectHas(smap, hs, k);
        var n := smap[hs[k].index].name;
        assert n in NamesOf(smap, hs);
        assert hs[k].addr in ip[n];
      }
    }
  }

  /** Every address of `rip2syms` lies in a range of the function it maps to. */
  ghost predicate Attributed(smap: seq<Range>, rip2syms: map<nat, string>) {
    forall a :: a in rip2syms ==> exists i :: 0 <= i < |smap| && smap[i].name == rip2syms[a] && InRange(smap[i], a)
  }

  lemma AttributedByScan(smap: seq<Range>, hs: seq<Hit>, ip: map<string, seq<nat>>, rip2syms: map<nat, string>,
                         krips: seq<string>)
    requires Owners(smap, krips) == Ok(hs)
    requires ValidHits(smap, hs) && forall n :: n in ip ==> ip[n] == Select(smap, hs, n)
    requires forall a :: a in rip2syms ==> rip2syms[a] in ip && a in ip[rip2syms[a]]
    ensures Attributed(smap, rip2syms)
  {
    CursorShape(smap, 0, krips);
    forall a | a in rip2syms
      ensures exists i :: 0 <= i < |smap| && smap[i].name == rip2syms[a] && InRange(smap[i], a)
    {
      SelectSound(smap, hs, rip2syms[a], a);
    }
  }

  /**
   * `callers`, less its printing. It fails exactly when `rip2func` fails on
   * the sorted kernel addresses. Otherwise every frame resolves, each
   * address is attributed to a function whose range holds it, the top
   * callers are the nodes with more than one percent of the samples and
   * their frame counts, and each callee list holds the callee's call counts.
   */
  method Callers(smap: seq<Range>, bts: seq<seq<string>>) returns (r: Result<Report, ResolveError>)
    ensures Owners(smap, KernelAddresses(bts)).Err? ==> r == Err(Owners(smap, KernelAddresses(bts)).error)
    ensures Owners(smap, KernelAddresses(bts)).Ok? ==> r.Ok?
    ensures r.Ok? ==> (
      var rep := r.value;
      && Resolves(rep.rip2syms, bts)
      && Attributed(smap, rep.rip2syms)
      && var ns := NameBacktraces(rep.rip2syms, bts);
      && StrictlyDescending(rep.top)
      && (forall x :: x in rep.top <==> FrameCount(ns, x.1) > 0 && x.0 == FrameCount(ns, x.1) && 100 * x.0 > |bts|)
      && |rep.callees| == |rep.top|
      && (forall k :: 0 <= k < |rep.top| ==> StrictlyDescending(rep.callees[k]))
      && (forall k, y :: 0 <= k < |rep.top| ==>
           (y in rep.callees[k] <==> CallCount(ns, rep.top[k].1, y.1) > 0 && y.0 == CallCount(ns, rep.top[k].1, y.1))))
  {
    var rips := Concat(bts);
    rips := SortLex(rips);
    var _, krips := DivRips(rips);
    var res := Rip2Func(krips, smap);
    if res.Err? {
      return Err(res.error);
    }
    var func2ips := res.value.1;
    var rip2syms := InvertIndex(func2ips);
    ghost var hs := Owners(smap, krips).value;
    KernelFramesResolve(bts, smap, hs, func2ips, rip2syms);
    AttributedByScan(smap, hs, func2ips, rip2syms, krips);
    var g := new Graph(rip2syms);
    AddBacktraces(g, bts);
    var top, callees := Rankings(g, |bts|, NameBacktraces(rip2syms, bts));
    r := Ok(Report(rip2syms, top, callees));
  }
}
