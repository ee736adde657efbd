/**
 * The call graph of `callers`: one node per function name, a sample count
 * per node and a call count per (caller, callee) edge, built from the
 * backtraces one frame and one adjacent pair at a time.
 */
module CallGraph {
  import opened Wrappers
  import opened Text
  import opened AddressSpace
  import opened Order

  /** The one node that stands for every user-space frame. */
  const UserNode := "USER"

  /** `int(rip, 16)` fails (ValueError), or the address has no entry in `rip2syms` (KeyError). */
  datatype FrameError = BadFrame(rip: string) | UnknownAddress(addr: nat)

  /** The node name `nodebyrip` picks for a frame. */
  function FrameName(rip2syms: map<nat, string>, f: string): Result<string, FrameError> {
    if IsUser(f) then Ok(UserNode)
    else
      match ParseHex(f)
      case None => Err(BadFrame(f))
      case Some(a) => if a in rip2syms then Ok(rip2syms[a]) else Err(UnknownAddress(a))
  }

  /**
   * The node of a frame written as `width` lower-case hex digits: `USER`
   * exactly for addresses in the user range, otherwise the function
   * `rip2syms` maps the address to, or the KeyError when it has none.
   */
  lemma FrameNameOfAddress(rip2syms: map<nat, string>, a: nat, width: nat)
    requires 7 <= width && a < Pow16(width)
    ensures FrameName(rip2syms, HexString(a, width)) ==
      if 0x2c8 * Pow16(width - 7) <= a < 0x2c9 * Pow16(width - 7) then Ok(UserNode)
      else if a in rip2syms then Ok(rip2syms[a])
      else Err(UnknownAddress(a))
  {
    var f := HexString(a, width);
    HexOfHexString(a, width);
    UserSpan(f);
    ParseHexString(a, width);
  }

  /** Every frame of every backtrace names a node. */
  predicate Resolves(rip2syms: map<nat, string>, bts: seq<seq<string>>) {
    forall b, i :: 0 <= b < |bts| && 0 <= i < |bts[b]| ==> FrameName(rip2syms, bts[b][i]).Ok?
  }

  /** The backtraces with each frame replaced by its node name. */
  function NameBacktraces(rip2syms: map<nat, string>, bts: seq<seq<string>>): (ns: seq<seq<string>>)
    requires Resolves(rip2syms, bts)
    ensures |ns| == |bts|
    ensures forall b :: 0 <= b < |bts| ==> |ns[b]| == |bts[b]|
    ensures forall b, i :: 0 <= b < |bts| && 0 <= i < |bts[b]| ==>
      ns[b][i] == FrameName(rip2syms, bts[b][i]).value
  {
    seq(|bts|, b requires 0 <= b < |bts| =>
      seq(|bts[b]|, i requires 0 <= i < |bts[b]| => FrameName(rip2syms, bts[b][i]).value))
  }

  // ---- counts over named backtraces ----

  /** The frames named `n` over all backtraces: what `samps` counts. */
  function FrameCount(nbts: seq<seq<string>>, n: string): nat {
    if |nbts| == 0 then 0 else FrameCount(nbts[..|nbts| - 1], n) + Occ(nbts[|nbts| - 1], n)
  }

  /** The adjacent pairs of `s` in which `m` (one frame out) called `n`. */
  function Calls(s: seq<string>, m: string, n: string): nat {
    if |s| < 2 then 0
    else Calls(s[..|s| - 1], m, n) + (if s[|s| - 1] == m && s[|s| - 2] == n then 1 else 0)
  }

  /** Over all backtraces, how often `m` called `n`: what `cees` counts. */
  function CallCount(nbts: seq<seq<string>>, m: string, n: string): nat {
    if |nbts| == 0 then 0 else CallCount(nbts[..|nbts| - 1], m, n) + Calls(nbts[|nbts| - 1], m, n)
  }

  /** The backtraces in which `n` appears at all: the samples the source comment on `samps` describes. */
  function Samples(nbts: seq<seq<string>>, n: string): nat {
    if |nbts| == 0 then 0 else Samples(nbts[..|nbts| - 1], n) + (if n in nbts[|nbts| - 1] then 1 else 0)
  }

  /** The total number of frames. */
  function TotalFrames(nbts: seq<seq<string>>): nat {
    if |nbts| == 0 then 0 else TotalFrames(nbts[..|nbts| - 1]) + |nbts[|nbts| - 1]|
  }

  lemma {:induction false} OccPositive(s: seq<string>, n: string)
    ensures Occ(s, n) > 0 <==> n in s
    ensures Occ(s, n) <= |s|
  {
    if |s| > 0 {
      var p := s[..|s| - 1];
      OccPositive(p, n);
      assert s == p + [s[|s| - 1]];
    }
  }

  /** A node gets a positive count exactly when one of its frames occurs in some backtrace. */
  lemma {:induction false} FrameCountPositive(nbts: seq<seq<string>>, n: string)
    ensures FrameCount(nbts, n) > 0 <==> exists b :: 0 <= b < |nbts| && n in nbts[b]
    ensures FrameCount(nbts, n) <= TotalFrames(nbts)
  {
    if |nbts| > 0 {
      var p := nbts[..|nbts| - 1];
      FrameCountPositive(p, n);
      OccPositive(nbts[|nbts| - 1], n);
      if exists b :: 0 <= b < |p| && n in p[b] {
        var b :| 0 <= b < |p| && n in p[b];
        assert nbts[b] == p[b];
      }
      if exists b :: 0 <= b < |nbts| && n in nbts[b] {
        var b :| 0 <= b < |nbts| && n in nbts[b];
        if b < |p| { assert p[b] == nbts[b]; }
      }
    }
  }

  /**
   * `samps` counts frames, not samples: it is at least the number of
   * backtraces that hold the node, and exactly that when no backtrace
   * holds it twice.
   */
  lemma {:induction false} FrameCountCoversSamples(nbts: seq<seq<string>>, n: string)
    ensures Samples(nbts, n) <= FrameCount(nbts, n)
    ensures (forall b :: 0 <= b < |nbts| ==> Occ(nbts[b], n) <= 1) ==> Samples(nbts, n) == FrameCount(nbts, n)
  {
    if |nbts| > 0 {
      var p := nbts[..|nbts| - 1];
      FrameCountCoversSamples(p, n);
      OccPositive(nbts[|nbts| - 1], n);
      if forall b :: 0 <= b < |nbts| ==> Occ(nbts[b], n) <= 1 {
        assert forall b :: 0 <= b < |p| ==> Occ(p[b], n) <= 1 by {
          forall b | 0 <= b < |p| ensures Occ(p[b], n) <= 1 { assert p[b] == nbts[b]; }
        }
      }
    }
  }

  /** A function that calls itself is counted twice in one sample. */
  lemma RecursionCountsTwice()
    ensures FrameCount([["f", "f"]], "f") == 2
    ensures Samples([["f", "f"]], "f") == 1
    ensures CallCount([["f", "f"]], "f", "f") == 1
  {
    var s: seq<string> := ["f", "f"];
    var none: seq<seq<string>> := [];
    assert [s][..0] == none;
    assert s[..1] == ["f"] && s[..1][..0] == [];
    assert Occ(s[..1], "f") == 1;
    assert Occ(s, "f") == 2;
    assert [s][..0] == none;
  }

  /** A name at two positions of a backtrace counts at least twice. */
  lemma {:induction false} OccTwice(s: seq<string>, n: string, i: nat, j: nat)
    requires i < j < |s| && s[i] == n && s[j] == n
    ensures Occ(s, n) >= 2
  {
    var p := s[..|s| - 1];
    if j < |s| - 1 {
      assert p[i] == s[i] && p[j] == s[j];
      OccTwice(p, n, i, j);
    } else {
      assert p[i] == n;
      OccPositive(p, n);
    }
  }

  /**
   * In general: once any backtrace holds a call of `n` by itself, `samps`
   * of `n` exceeds the number of samples that hold it.
   */
  lemma {:induction false} SelfCallOvercounts(nbts: seq<seq<string>>, n: string, b: nat, i: nat)
    requires b < |nbts| && i + 1 < |nbts[b]| && nbts[b][i] == n && nbts[b][i + 1] == n
    ensures Samples(nbts, n) < FrameCount(nbts, n)
  {
    var p, last := nbts[..|nbts| - 1], nbts[|nbts| - 1];
    OccPositive(last, n);
    if b < |nbts| - 1 {
      assert p[b] == nbts[b];
      SelfCallOvercounts(p, n, b, i);
    } else {
      FrameCountCoversSamples(p, n);
      OccTwice(last, n, i, i + 1);
    }
  }

  /** Every counted call has its callee one frame in and its caller one frame out. */
  lemma {:induction false} CallsBounded(s: seq<string>, m: string, n: string)
    ensures |s| > 0 ==> Calls(s, m, n) <= Occ(s[..|s| - 1], n)
    ensures Calls(s, m, n) <= Occ(s, n)
    ensures Calls(s, m, n) <= Occ(s, m)
  {
    if |s| >= 2 {
      var p := s[..|s| - 1];
      CallsBounded(p, m, n);
      assert p[..|p| - 1] == s[..|s| - 2];
      assert p[|p| - 1] == s[|s| - 2];
      OccStep(p, n);
      OccStep(s, n);
      OccStep(s, m);
    } else if |s| == 1 {
      assert s[..0] == [];
    }
  }

  lemma OccStep(s: seq<string>, n: string)
    requires |s| > 0
    ensures Occ(s, n) == Occ(s[..|s| - 1], n) + (if s[|s| - 1] == n then 1 else 0)
  {
  }

  /**
   * An edge is never counted more often than either end's frames: the
   * callee's share `times / c.samps` is at most one and its `c.samps` is
   * positive whenever `times` is, so the callee ranking never divides by zero.
   */
  lemma {:induction false} CallCountBounded(nbts: seq<seq<string>>, m: string, n: string)
    ensures CallCount(nbts, m, n) <= FrameCount(nbts, n)
    ensures CallCount(nbts, m, n) <= FrameCount(nbts, m)
  {
    if |nbts| > 0 {
      CallCountBounded(nbts[..|nbts| - 1], m, n);
      CallsBounded(nbts[|nbts| - 1], m, n);
    }
  }

  // ---- conservation: the node and edge counts add up to the frames ----

  /** The sum, over `names`, of each name's frames in one backtrace. */
  function SumCount(names: seq<string>, s: seq<string>): nat {
    if |names| == 0 then 0 else SumCount(names[..|names| - 1], s) + Occ(s, names[|names| - 1])
  }

  /** The sum, over `names`, of each name's frames over all backtraces: the sum of `samps`. */
  function SumFrameCount(names: seq<string>, nbts: seq<seq<string>>): nat {
    if |names| == 0 then 0
    else SumFrameCount(names[..|names| - 1], nbts) + FrameCount(nbts, names[|names| - 1])
  }

  lemma {:induction false} SumCountSnoc(names: seq<string>, s: seq<string>, x: string)
    ensures SumCount(names, s + [x]) == SumCount(names, s) + Occ(names, x)
  {
    assert (s + [x])[..|s|] == s;
    if |names| > 0 {
      SumCountSnoc(names[..|names| - 1], s, x);
    }
  }

  /** Counting a backtrace name by name, over names that cover it once each, counts every frame once. */
  lemma {:induction false} SumCountCovers(names: seq<string>, s: seq<string>)
    requires Distinct(names)
    requires forall i :: 0 <= i < |s| ==> s[i] in names
    ensures SumCount(names, s) == |s|
  {
    if |s| == 0 {
      if |names| > 0 {
        SumCountCovers(names[..|names| - 1], s);
      }
    } else {
      var p := s[..|s| - 1];
      SumCountCovers(names, p);
      assert s == p + [s[|s| - 1]];
      SumCountSnoc(names, p, s[|s| - 1]);
      OccDistinct(names, s[|s| - 1]);
    }
  }

  lemma {:induction false} SumFrameCountSnoc(names: seq<string>, nbts: seq<seq<string>>, bt: seq<string>)
    ensures SumFrameCount(names, nbts + [bt]) == SumFrameCount(names, nbts) + SumCount(names, bt)
  {
    assert (nbts + [bt])[..|nbts|] == nbts;
    if |names| > 0 {
      SumFrameCountSnoc(names[..|names| - 1], nbts, bt);
    }
  }

  /**
   * The `samps` of all nodes add up to the total number of frames: summed
   * over any list of distinct names that covers every frame, the frame
   * counts give `TotalFrames`.
   */
  lemma {:induction false} SampsConserved(names: seq<string>, nbts: seq<seq<string>>)
    requires Distinct(names)
    requires forall b, i :: 0 <= b < |nbts| && 0 <= i < |nbts[b]| ==> nbts[b][i] in names
    ensures SumFrameCount(names, nbts) == TotalFrames(nbts)
  {
    if |nbts| == 0 {
      if |names| > 0 {
        SumFrameCountZero(names[..|names| - 1]);
      }
    } else {
      var p, bt := nbts[..|nbts| - 1], nbts[|nbts| - 1];
      assert forall b, i :: 0 <= b < |p| && 0 <= i < |p[b]| ==> p[b][i] in names by {
        forall b, i | 0 <= b < |p| && 0 <= i < |p[b]| ensures p[b][i] in names {
          assert p[b] == nbts[b];
        }
      }
      SampsConserved(names, p);
      assert nbts == p + [bt];
      SumFrameCountSnoc(names, p, bt);
      SumCountCovers(names, bt);
    }
  }

  lemma {:induction false} SumFrameCountZero(names: seq<string>)
    ensures SumFrameCount(names, []) == 0
  {
    if |names| > 0 {
      SumFrameCountZero(names[..|names| - 1]);
    }
  }

  /** The sum, over (caller, callee) `pairs`, of each pair's calls in one backtrace. */
  function SumCalls(pairs: seq<(string, string)>, s: seq<string>): nat {
    if |pairs| == 0 then 0
    else SumCalls(pairs[..|pairs| - 1], s) + Calls(s, pairs[|pairs| - 1].0, pairs[|pairs| - 1].1)
  }

  /** The sum, over (caller, callee) `pairs`, of each edge's count: the sum of all `cees` values. */
  function SumCallCount(pairs: seq<(string, string)>, nbts: seq<seq<string>>): nat {
    if |pairs| == 0 then 0
    else SumCallCount(pairs[..|pairs| - 1], nbts) + CallCount(nbts, pairs[|pairs| - 1].0, pairs[|pairs| - 1].1)
  }

  /** The adjacent pairs of all backtraces: `len(bt) - 1` per backtrace, none for an empty one. */
  function TotalCalls(nbts: seq<seq<string>>): nat {
    if |nbts| == 0 then 0
    else TotalCalls(nbts[..|nbts| - 1]) + (if |nbts[|nbts| - 1]| == 0 then 0 else |nbts[|nbts| - 1]| - 1)
  }

  lemma {:induction false} SumCallsSnoc(pairs: seq<(string, string)>, s: seq<string>, x: string)
    requires |s| > 0
    ensures SumCalls(pairs, s + [x]) == SumCalls(pairs, s) + Occ(pairs, (x, s[|s| - 1]))
  {
    var t := s + [x];
    assert t[..|t| - 1] == s && t[|t| - 2] == s[|s| - 1];
    if |pairs| > 0 {
      SumCallsSnoc(pairs[..|pairs| - 1], s, x);
    }
  }

  lemma {:induction false} SumCallsShort(pairs: seq<(string, string)>, s: seq<string>)
    requires |s| < 2
    ensures SumCalls(pairs, s) == 0
  {
    if |pairs| > 0 {
      SumCallsShort(pairs[..|pairs| - 1], s);
    }
  }

  /** Counting a backtrace's calls edge by edge, over edges that cover it once each, counts every pair once. */
  lemma {:induction false} SumCallsCovers(pairs: seq<(string, string)>, s: seq<string>)
    requires Distinct(pairs)
    requires forall i :: 0 <= i < |s| - 1 ==> (s[i + 1], s[i]) in pairs
    ensures SumCalls(pairs, s) == if |s| == 0 then 0 else |s| - 1
  {
    if |s| < 2 {
      SumCallsShort(pairs, s);
    } else {
      var p := s[..|s| - 1];
      assert forall i :: 0 <= i < |p| - 1 ==> (p[i + 1], p[i]) in pairs by {
        forall i | 0 <= i < |p| - 1 ensures (p[i + 1], p[i]) in pairs {
          assert p[i + 1] == s[i + 1] && p[i] == s[i];
        }
      }
      SumCallsCovers(pairs, p);
      assert s == p + [s[|s| - 1]];
      SumCallsSnoc(pairs, p, s[|s| - 1]);
      assert (s[|s| - 1], p[|p| - 1]) == (s[|s| - 2 + 1], s[|s| - 2]);
      OccDistinct(pairs, (s[|s| - 1], p[|p| - 1]));
    }
  }

  lemma {:induction false} SumCallCountSnoc(pairs: seq<(string, string)>, nbts: seq<seq<string>>, bt: seq<string>)
    ensures SumCallCount(pairs, nbts + [bt]) == SumCallCount(pairs, nbts) + SumCalls(pairs, bt)
  {
    assert (nbts + [bt])[..|nbts|] == nbts;
    if |pairs| > 0 {
      SumCallCountSnoc(pairs[..|pairs| - 1], nbts, bt);
    }
  }

  lemma {:induction false} SumCallCountZero(pairs: seq<(string, string)>)
    ensures SumCallCount(pairs, []) == 0
  {
    if |pairs| > 0 {
      SumCallCountZero(pairs[..|pairs| - 1]);
    }
  }

  /**
   * The edge counts of all nodes add up to the adjacent pairs of all
   * backtraces: summed over any list of distinct (caller, callee) pairs
   * that covers every adjacent pair, the call counts give `TotalCalls`.
   */
  lemma {:induction false} CallsConserved(pairs: seq<(string, string)>, nbts: seq<seq<string>>)
    requires Distinct(pairs)
    requires forall b, i :: 0 <= b < |nbts| && 0 <= i < |nbts[b]| - 1 ==> (nbts[b][i + 1], nbts[b][i]) in pairs
    ensures SumCallCount(pairs, nbts) == TotalCalls(nbts)
  {
    if |nbts| == 0 {
      SumCallCountZero(pairs);
    } else {
      var p, bt := nbts[..|nbts| - 1], nbts[|nbts| - 1];
      assert forall b, i :: 0 <= b < |p| && 0 <= i < |p[b]| - 1 ==> (p[b][i + 1], p[b][i]) in pairs by {
        forall b, i | 0 <= b < |p| && 0 <= i < |p[b]| - 1 ensures (p[b][i + 1], p[b][i]) in pairs {
          assert p[b] == nbts[b];
        }
      }
      CallsConserved(pairs, p);
      assert nbts == p + [bt];
      SumCallCountSnoc(pairs, p, bt);
      SumCallsCovers(pairs, bt);
    }
  }

  // ---- the graph ----

  /** `gnode`: a function's node, its callees with the number of calls, and its sample count. */
  class GNode {
    const name: string
    var cees: map<GNode, nat>
    var samps: nat

    constructor(name: string)
      ensures this.name == name && cees == map[] && samps == 0
    {
      this.name := name;
      cees := map[];
      samps := 0;
    }

    /** `called`: one more call of `cnode` from this node. */
    method Called(cnode: GNode)
      modifies this
      ensures cees == old(cees)[cnode := (if cnode in old(cees) then old(cees)[cnode] else 0) + 1]
      ensures samps == old(samps)
    {
      if cnode !in cees {
        cees := cees[cnode := 0];
      }
      var old_ := cees[cnode];
      cees := cees[cnode := old_ + 1];
    }
  }

  /** `graph`: the nodes by name and the address-to-name map frames are resolved through. */
  class Graph {
    var nodes: map<string, GNode>
    const rip2syms: map<nat, string>

    /**
     * Each node is filed under its own name, so different names are
     * different nodes, and every callee is a node of this graph that was
     * called at least once.
     */
    ghost predicate Valid()
      reads this, nodes.Values`cees
    {
      && (forall n :: n in nodes ==> nodes[n].name == n)
      && (forall m, c :: m in nodes && c in nodes[m].cees ==> c in nodes.Values && nodes[m].cees[c] > 0)
    }

    constructor(rip2syms: map<nat, string>)
      ensures nodes == map[] && this.rip2syms == rip2syms && Valid()
    {
      nodes := map[];
      this.rip2syms := rip2syms;
    }

    /** The sample count of node `n`; zero for a node not yet made. */
    ghost function SampsOf(n: string): nat
      reads this, nodes.Values`samps
    {
      if n in nodes then nodes[n].samps else 0
    }

    /** How often node `m` has called node `n`; zero when there is no such edge. */
    ghost function EdgeOf(m: string, n: string): nat
      reads this, nodes.Values`cees
    {
      if m in nodes && n in nodes && nodes[n] in nodes[m].cees then nodes[m].cees[nodes[n]] else 0
    }

    /** `ensurenode`: the node called `name`, made with no samples and no callees if there was none. */
    method EnsureNode(name: string) returns (node: GNode)
      requires Valid()
      modifies this
      ensures Valid() && node.name == name && name in nodes && nodes[name] == node
      ensures name in old(nodes) ==> nodes == old(nodes) && node == old(nodes)[name]
      ensures name !in old(nodes) ==>
        && nodes == old(nodes)[name := node]
        && fresh(node) && node.samps == 0 && node.cees == map[]
      ensures forall k :: SampsOf(k) == old(SampsOf(k))
      ensures forall k, l :: EdgeOf(k, l) == old(EdgeOf(k, l))
    {
      if name in nodes {
        return nodes[name];
      }
      node := new GNode(name);
      nodes := nodes[name := node];
      forall m, c | m in nodes && c in nodes[m].cees ensures c in nodes.Values && nodes[m].cees[c] > 0 {
        assert m in old(nodes) && nodes[m] == old(nodes)[m];
        assert c in old(nodes).Values;
        var k :| k in old(nodes) && old(nodes)[k] == c;
        assert nodes[k] == c;
      }

    }

    /** `nodebyrip`: the `USER` node for a user address, else the node of the function that holds it. */
    method NodeByRip(rip: string) returns (r: Result<GNode, FrameError>)
      requires Valid()
      modifies this
      ensures Valid()
      ensures FrameName(rip2syms, rip).Err? ==> r == Err(FrameName(rip2syms, rip).error) && nodes == old(nodes)
      ensures FrameName(rip2syms, rip).Ok? ==>
        var n := FrameName(rip2syms, rip).value;
        && r.Ok? && r.value.name == n && n in nodes && nodes[n] == r.value
        && (n in old(nodes) ==> nodes == old(nodes))
        && (n !in old(nodes) ==>
          nodes == old(nodes)[n := r.value] && fresh(r.value) && r.value.samps == 0 && r.value.cees == map[])
      ensures forall k :: SampsOf(k) == old(SampsOf(k))
      ensures forall k, l :: EdgeOf(k, l) == old(EdgeOf(k, l))
    {
      if IsUser(rip) {
        var node := EnsureNode(UserNode);
        return Ok(node);
      }
      var a := ParseHex(rip);
      if a.None? {
        return Err(BadFrame(rip));
      }
      if a.value !in rip2syms {
        return Err(UnknownAddress(a.value));
      }
      var node := EnsureNode(rip2syms[a.value]);
      return Ok(node);
    }
  }

  /** One frame of the first loop of `callers`: its node, made if need be, gets one more sample. */
  method CountFrame(g: Graph, rip: string, ghost n: string)
    requires g.Valid() && FrameName(g.rip2syms, rip) == Ok(n)
    modifies g, g.nodes.Values
    ensures g.Valid()
    ensures g.nodes.Keys == old(g.nodes.Keys) + {n}
    ensures forall v :: v in g.nodes.Values ==> v in old(g.nodes.Values) || fresh(v)
    ensures forall k :: g.SampsOf(k) == old(g.SampsOf(k)) + (if k == n then 1 else 0)
    ensures forall k, l :: g.EdgeOf(k, l) == old(g.EdgeOf(k, l))
  {
    var r := g.NodeByRip(rip);
    var node := r.value;
    assert forall k :: k in g.nodes && k != n ==> g.nodes[k] != node;
    node.samps := node.samps + 1;
  }

  /** One adjacent pair of the second loop of `callers`: one more call from the outer frame's node to the inner one's. */
  method CountCall(g: Graph, calleeRip: string, callerRip: string, ghost m: string, ghost n: string)
    requires g.Valid()
    requires FrameName(g.rip2syms, callerRip) == Ok(m) && FrameName(g.rip2syms, calleeRip) == Ok(n)
    requires m in g.nodes && n in g.nodes
    modifies g, g.nodes.Values
    ensures g.Valid() && g.nodes == old(g.nodes)
    ensures forall k :: g.SampsOf(k) == old(g.SampsOf(k))
    ensures forall k, l :: g.EdgeOf(k, l) == old(g.EdgeOf(k, l)) + (if k == m && l == n then 1 else 0)
  {
    var callee := g.NodeByRip(calleeRip);
    var caller := g.NodeByRip(callerRip);
    var ce, cr := callee.value, caller.value;
    label found:
    cr.Called(ce);
    forall k, l ensures g.EdgeOf(k, l) == old@found(g.EdgeOf(k, l)) + (if k == m && l == n then 1 else 0) {
      if k in g.nodes && l in g.nodes {
        if k == m {
          assert g.nodes[l] == ce <==> l == n;
        } else {
          assert g.nodes[k] != cr;
        }
      }
    }
    forall k, c | k in g.nodes && c in g.nodes[k].cees ensures c in g.nodes.Values && g.nodes[k].cees[c] > 0 {
      if g.nodes[k] == cr && c != ce {
        assert c in old@found(cr.cees);
      }
    }
  }

  /** The frames of `bt` name the nodes `s`. */
  ghost predicate NamedBy(g: Graph, bt: seq<string>, s: seq<string>)
    reads g
  {
    |s| == |bt| && forall i :: 0 <= i < |bt| ==> FrameName(g.rip2syms, bt[i]) == Ok(s[i])
  }

  /** The first loop of `callers` over one backtrace: each frame adds one to its node's `samps`. */
  method AddSamples(g: Graph, bt: seq<string>, ghost s: seq<string>)
    requires g.Valid() && NamedBy(g, bt, s)
    modifies g, g.nodes.Values
    ensures g.Valid()
    ensures forall v :: v in g.nodes.Values ==> v in old(g.nodes.Values) || fresh(v)
    ensures forall k :: k in g.nodes <==> k in old(g.nodes) || Occ(s, k) > 0
    ensures forall k :: g.SampsOf(k) == old(g.SampsOf(k)) + Occ(s, k)
    ensures forall k, l :: g.EdgeOf(k, l) == old(g.EdgeOf(k, l))
  {
    for i := 0 to |bt|
      invariant g.Valid()
      invariant forall v :: v in g.nodes.Values ==> v in old(g.nodes.Values) || fresh(v)
      invariant forall k :: k in g.nodes <==> k in old(g.nodes) || Occ(s[..i], k) > 0
      invariant forall k :: g.SampsOf(k) == old(g.SampsOf(k)) + Occ(s[..i], k)
      invariant forall k, l :: g.EdgeOf(k, l) == old(g.EdgeOf(k, l))
    {
      CountFrame(g, bt[i], s[i]);
      CountPrefixStep(s, i);
    }
    assert s[..|bt|] == s;
  }

  /** The second loop of `callers` over one backtrace: each adjacent pair adds one call from the outer node to the inner one. */
  method AddCalls(g: Graph, bt: seq<string>, ghost s: seq<string>)
    requires g.Valid() && NamedBy(g, bt, s)
    requires forall i :: 0 <= i < |s| ==> s[i] in g.nodes
    modifies g, g.nodes.Values
    ensures g.Valid() && g.nodes == old(g.nodes)
    ensures forall k :: g.SampsOf(k) == old(g.SampsOf(k))
    ensures forall k, l :: g.EdgeOf(k, l) == old(g.EdgeOf(k, l)) + Calls(s, k, l)
  {
    if |bt| > 0 {
      assert forall k, l :: Calls(s[..1], k, l) == 0;
      for i := 0 to |bt| - 1
        invariant g.Valid() && g.nodes == old(g.nodes)
        invariant forall k :: g.SampsOf(k) == old(g.SampsOf(k))
        invariant forall k, l :: g.EdgeOf(k, l) == old(g.EdgeOf(k, l)) + Calls(s[..i + 1], k, l)
      {
        CountCall(g, bt[i], bt[i + 1], s[i + 1], s[i]);
        CallsPrefixStep(s, i);
      }
      assert s[..|bt| - 1 + 1] == s;
    }
  }

  /**
   * The two loops of `callers` over every backtrace: every frame adds one to
   * its node's `samps`, and every adjacent pair adds one call from the outer
   * frame's node to the inner one's. Afterwards the nodes are exactly the
   * names that occur, `samps` is `FrameCount` and the edges are `CallCount`.
   */
  method AddBacktraces(g: Graph, bts: seq<seq<string>>)
    requires g.Valid() && g.nodes == map[]
    requires Resolves(g.rip2syms, bts)
    modifies g
    ensures g.Valid()
    ensures forall v :: v in g.nodes.Values ==> fresh(v)
    ensures var ns := NameBacktraces(g.rip2syms, bts);
      && (forall n :: n in g.nodes <==> FrameCount(ns, n) > 0)
      && (forall n :: g.SampsOf(n) == FrameCount(ns, n))
      && (forall m, n :: g.EdgeOf(m, n) == CallCount(ns, m, n))
  {
    ghost var ns := NameBacktraces(g.rip2syms, bts);
    for b := 0 to |bts|
      invariant g.Valid()
      invariant forall v :: v in g.nodes.Values ==> fresh(v)
      invariant forall n :: n in g.nodes <==> FrameCount(ns[..b], n) > 0
      invariant forall n :: g.SampsOf(n) == FrameCount(ns[..b], n)
      invariant forall m, n :: g.EdgeOf(m, n) == CallCount(ns[..b], m, n)
    {
      ghost var s := ns[b];
      PrefixStep(ns, b);
      assert NamedBy(g, bts[b], s);
      AddSamples(g, bts[b], s);
      forall i | 0 <= i < |s| ensures s[i] in g.nodes {
        OccPositive(s, s[i]);
      }
      AddCalls(g, bts[b], s);
    }
    assert ns[..|bts|] == ns;
  }

  lemma CountPrefixStep(s: seq<string>, i: nat)
    requires i < |s|
    ensures forall k :: Occ(s[..i + 1], k) == Occ(s[..i], k) + (if k == s[i] then 1 else 0)
  {
    assert s[..i + 1][..i] == s[..i];
  }

  lemma CallsPrefixStep(s: seq<string>, i: nat)
    requires i + 1 < |s|
    ensures var longer, shorter := s[..i + 2], s[..i + 1];
      forall k, l :: Calls(longer, k, l) == Calls(shorter, k, l) + (if k == s[i + 1] && l == s[i] then 1 else 0)
  {
    assert s[..i + 2][..i + 1] == s[..i + 1];
  }

  lemma PrefixStep(ns: seq<seq<string>>, b: nat)
    requires b < |ns|
    ensures forall n :: FrameCount(ns[..b + 1], n) == FrameCount(ns[..b], n) + Occ(ns[b], n)
    ensures forall m, n :: CallCount(ns[..b + 1], m, n) == CallCount(ns[..b], m, n) + Calls(ns[b], m, n)
  {
    assert ns[..b + 1][..b] == ns[..b];
  }
}
