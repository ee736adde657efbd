/**
 * The profile-log parser (`openrips`). Its input is the log's lines after
 * they have been stripped and blank lines dropped. A log that holds either
 * sentinel anywhere is a backtrace log; otherwise every line is a flat
 * sample `<addr> <x> <count>`.
 */
module Profile {
  import opened Wrappers
  import opened Text
  import opened Order

  /** Sentinel that opens a backtrace. */
  const Start := "deadbeefdeadbeef"
  /** Sentinel that marks a backtrace the kernel could not complete. */
  const Failed := "feedfacefeedface"

  predicate IsSentinel(l: string) {
    l == Start || l == Failed
  }

  predicate NoSentinel(run: seq<string>) {
    forall j :: 0 <= j < |run| ==> !IsSentinel(run[j])
  }

  /** Some line is a sentinel: the log is a backtrace log. */
  predicate HasSentinel(lines: seq<string>) {
    exists i :: 0 <= i < |lines| && IsSentinel(lines[i])
  }

  /** The sentinel lines, in file order. */
  function Sentinels(lines: seq<string>): seq<string> {
    if |lines| == 0 then []
    else
      var l := lines[|lines| - 1];
      Sentinels(lines[..|lines| - 1]) + (if IsSentinel(l) then [l] else [])
  }

  // ---- backtrace logs ----

  /**
   * The runs of non-sentinel lines that the sentinels separate, in file
   * order: k sentinels give k + 1 runs, some of them possibly empty.
   */
  function Runs(lines: seq<string>): (rs: seq<seq<string>>)
    ensures |rs| >= 1
    ensures forall k :: 0 <= k < |rs| ==> NoSentinel(rs[k])
  {
    if |lines| == 0 then [[]]
    else
      var rs := Runs(lines[..|lines| - 1]);
      var l := lines[|lines| - 1];
      if IsSentinel(l) then rs + [[]] else rs[..|rs| - 1] + [rs[|rs| - 1] + [l]]
  }

  /** Runs and the sentinels between them, put back together. */
  function Interleave(rs: seq<seq<string>>, ss: seq<string>): seq<string>
    requires |rs| == |ss| + 1
  {
    if |ss| == 0 then rs[0]
    else Interleave(rs[..|rs| - 1], ss[..|ss| - 1]) + [ss[|ss| - 1]] + rs[|rs| - 1]
  }

  /**
   * The runs are exactly the pieces between sentinels: putting the
   * sentinels back between them gives the log again. As no run holds a
   * sentinel, each run is a maximal sentinel-free stretch of the log.
   */
  lemma {:induction false} RunsRejoin(lines: seq<string>)
    ensures |Runs(lines)| == |Sentinels(lines)| + 1
    ensures Interleave(Runs(lines), Sentinels(lines)) == lines
  {
    if |lines| > 0 {
      var p, l := lines[..|lines| - 1], lines[|lines| - 1];
      RunsRejoin(p);
      var rs, ss := Runs(p), Sentinels(p);
      assert lines == p + [l];
      if IsSentinel(l) {
        assert Runs(lines) == rs + [[]];
        assert Sentinels(lines) == ss + [l];
        assert (rs + [[]])[..|rs|] == rs;
        assert (ss + [l])[..|ss|] == ss;
      } else {
        var last := rs[|rs| - 1];
        var rs' := rs[..|rs| - 1] + [last + [l]];
        assert Runs(lines) == rs';
        assert Sentinels(lines) == ss;
        if |ss| > 0 {
          assert rs'[..|rs'| - 1] == rs[..|rs| - 1];
        }
      }
    }
  }

  /** The non-empty runs among `rs`, in order. */
  function NonEmpty(rs: seq<seq<string>>): (r: seq<seq<string>>)
    ensures forall k :: 0 <= k < |r| ==> r[k] != [] && r[k] in rs
  {
    if |rs| == 0 then []
    else
      var last := rs[|rs| - 1];
      NonEmpty(rs[..|rs| - 1]) + (if last != [] then [last] else [])
  }

  /** The first line of each non-empty run, in order. */
  function Firsts(rs: seq<seq<string>>): seq<string> {
    if |rs| == 0 then []
    else
      var last := rs[|rs| - 1];
      Firsts(rs[..|rs| - 1]) + (if last != [] then [last[0]] else [])
  }

  /**
   * The backtraces `openrips` returns: every non-empty run that a sentinel
   * closes, including a run in front of the first sentinel. The run after
   * the last sentinel is never closed and is dropped.
   */
  function Backtraces(lines: seq<string>): (bts: seq<seq<string>>)
    ensures forall k :: 0 <= k < |bts| ==> bts[k] != [] && NoSentinel(bts[k])
  {
    var rs := Runs(lines);
    NonEmpty(rs[..|rs| - 1])
  }

  /** The addresses `openrips` adds to `rips` in a backtrace log: the first frame of each run that follows a sentinel. */
  function Leaders(lines: seq<string>): seq<string> {
    var rs := Runs(lines);
    Firsts(rs[1..])
  }

  /** Independent description of `Leaders`: each non-sentinel line whose predecessor is a sentinel. */
  function AfterSentinel(lines: seq<string>): seq<string> {
    if |lines| < 2 then []
    else
      var n := |lines|;
      AfterSentinel(lines[..n - 1])
        + (if !IsSentinel(lines[n - 1]) && IsSentinel(lines[n - 2]) then [lines[n - 1]] else [])
  }

  /** The current run is empty after some sentinel exactly when the last line read was a sentinel. */
  lemma LastRunEmpty(p: seq<string>)
    ensures (|Runs(p)| > 1 && Runs(p)[|Runs(p)| - 1] == []) <==> (|p| > 0 && IsSentinel(p[|p| - 1]))
  {
    if |p| > 0 && !IsSentinel(p[|p| - 1]) {
      var rs := Runs(p[..|p| - 1]);
      assert Runs(p)[|Runs(p)| - 1] == rs[|rs| - 1] + [p[|p| - 1]];
    }
  }

  /** `rips` holds exactly the first non-sentinel line after each sentinel, in file order. */
  lemma {:induction false} LeadersFollowSentinels(lines: seq<string>)
    ensures Leaders(lines) == AfterSentinel(lines)
  {
    if |lines| > 0 {
      var n := |lines|;
      var p, l := lines[..n - 1], lines[n - 1];
      var rs := Runs(p);
      LeadersFollowSentinels(p);
      LastRunEmpty(p);
      if IsSentinel(l) {
        assert Runs(lines)[1..] == rs[1..] + [[]];
        assert (rs[1..] + [[]])[..|rs| - 1] == rs[1..];
      } else if |rs| == 1 {
        assert Runs(lines)[1..] == [];
      } else {
        var last := rs[|rs| - 1];
        assert Runs(lines)[1..] == rs[1..|rs| - 1] + [last + [l]];
        assert (rs[1..|rs| - 1] + [last + [l]])[..|rs| - 2] == rs[1..|rs| - 1];
        assert rs[1..][..|rs| - 2] == rs[1..|rs| - 1];
        assert rs[1..][|rs| - 2] == last;
        if |p| > 0 {
          assert lines[..n - 1][..n - 2] == lines[..n - 2];
        }
      }
    }
  }

  function Flatten(rs: seq<seq<string>>): seq<string> {
    if |rs| == 0 then [] else Flatten(rs[..|rs| - 1]) + rs[|rs| - 1]
  }

  /** The non-sentinel lines, in file order. */
  function Frames(lines: seq<string>): seq<string> {
    if |lines| == 0 then []
    else
      var l := lines[|lines| - 1];
      Frames(lines[..|lines| - 1]) + (if IsSentinel(l) then [] else [l])
  }

  lemma {:induction false} FlattenNonEmpty(rs: seq<seq<string>>)
    ensures Flatten(NonEmpty(rs)) == Flatten(rs)
  {
    if |rs| > 0 {
      var p := rs[..|rs| - 1];
      FlattenNonEmpty(p);
      var last := rs[|rs| - 1];
      if last != [] {
        assert (NonEmpty(p) + [last])[..|NonEmpty(p)|] == NonEmpty(p);
      } else {
        assert NonEmpty(rs) == NonEmpty(p);
        assert Flatten(rs) == Flatten(p) + [];
        assert Flatten(p) + [] == Flatten(p);
      }
    }
  }

  /**
   * No frame is lost or duplicated: the closed backtraces followed by the
   * unclosed trailing run are exactly the non-sentinel lines, in order.
   */
  lemma {:induction false} FramesConserved(lines: seq<string>)
    ensures var rs := Runs(lines); Flatten(Backtraces(lines)) + rs[|rs| - 1] == Frames(lines)
  {
    var rs := Runs(lines);
    FlattenNonEmpty(rs[..|rs| - 1]);
    RunsFlatten(lines);
    assert rs == rs[..|rs| - 1] + [rs[|rs| - 1]];
    assert (rs[..|rs| - 1] + [rs[|rs| - 1]])[..|rs| - 1] == rs[..|rs| - 1];
  }

  lemma {:induction false} RunsFlatten(lines: seq<string>)
    ensures Flatten(Runs(lines)) == Frames(lines)
  {
    if |lines| > 0 {
      var p, l := lines[..|lines| - 1], lines[|lines| - 1];
      RunsFlatten(p);
      var rs := Runs(p);
      if IsSentinel(l) {
        assert (rs + [[]])[..|rs|] == rs;
        assert Flatten(rs + [[]]) == Flatten(rs) + [];
      } else {
        var front, last := rs[..|rs| - 1], rs[|rs| - 1];
        assert Flatten(rs) == Flatten(front) + last;
        assert (front + [last + [l]])[..|front|] == front;
      }
    }
  }

  // ---- flat logs ----

  /**
   * Why `openrips` fails: a flat line lacking a third field or a decimal
   * count, or a backtrace log with failure markers but no closed backtrace,
   * whose failure rate divides by zero.
   */
  datatype ParseError = BadSampleLine(index: nat) | NoBacktraceClosed

  /** A flat sample line: at least three fields, the third a decimal count. `None` is Python's IndexError or ValueError. */
  function Sample(l: string): Option<(string, int)> {
    var f := Fields(l);
    if |f| >= 3 && ParseInt(f[2]).Some? then Some((f[0], ParseInt(f[2]).value)) else None
  }

  /** A sample line written as address, any second word and a decimal count reads back as that address and count. */
  lemma SampleOfLine(addr: string, x: string, n: int)
    requires addr != [] && NoSpace(addr) && x != [] && NoSpace(x)
    ensures Sample(JoinBlank([addr, x, DecString(n)])) == Some((addr, n))
  {
    FieldsOfJoin([addr, x, DecString(n)]);
    ParseIntDecString(n);
  }

  /** `for i in range(n): rips.append(x)`; a negative count appends nothing. */
  function Repeat(x: string, n: int): (r: seq<string>)
    ensures |r| == if n < 0 then 0 else n
    ensures forall k :: 0 <= k < |r| ==> r[k] == x
  {
    if n <= 0 then [] else Repeat(x, n - 1) + [x]
  }

  /** The addresses of a flat log: each line's address repeated by its count, in line order; the first malformed line is the error. */
  function FlatRips(lines: seq<string>): Result<seq<string>, ParseError> {
    if |lines| == 0 then Ok([])
    else
      var n := |lines| - 1;
      match FlatRips(lines[..n])
      case Err(e) => Err(e)
      case Ok(rips) =>
        match Sample(lines[n])
        case None => Err(BadSampleLine(n))
        case Some(s) => Ok(rips + Repeat(s.0, s.1))
  }

  /** A flat log fails exactly at its first malformed line. */
  lemma {:induction false} FlatRipsFailsAtFirstBadLine(lines: seq<string>, i: nat)
    ensures FlatRips(lines) == Err(BadSampleLine(i)) <==>
      (i < |lines| && Sample(lines[i]).None? && forall j :: 0 <= j < i ==> Sample(lines[j]).Some?)
  {
    if |lines| > 0 {
      var n := |lines| - 1;
      FlatRipsFailsAtFirstBadLine(lines[..n], i);
      FlatRipsOkIffWellFormed(lines[..n]);
    }
  }

  lemma {:induction false} FlatRipsOkIffWellFormed(lines: seq<string>)
    ensures FlatRips(lines).Ok? <==> forall j :: 0 <= j < |lines| ==> Sample(lines[j]).Some?
  {
    if |lines| > 0 {
      FlatRipsOkIffWellFormed(lines[..|lines| - 1]);
    }
  }

  /** Weighted flat samples concatenate: the addresses of one log followed by another's are those of the joined log. */
  lemma {:induction false} FlatRipsAppend(a: seq<string>, b: seq<string>)
    requires FlatRips(a).Ok? && FlatRips(b).Ok?
    ensures FlatRips(a + b) == Ok(FlatRips(a).value + FlatRips(b).value)
  {
    if |b| > 0 {
      var n := |b| - 1;
      assert (a + b)[..|a| + n] == a + b[..n];
      FlatRipsAppend(a, b[..n]);
      assert (a + b)[|a| + n] == b[n];
      var s := Sample(b[n]).value;
      var x, y := FlatRips(a).value, FlatRips(b[..n]).value;
      assert FlatRips(b).value == y + Repeat(s.0, s.1);
      assert FlatRips(a + b) == Ok((x + y) + Repeat(s.0, s.1));
      assert (x + y) + Repeat(s.0, s.1) == x + (y + Repeat(s.0, s.1));
    } else {
      assert a + b == a;
      assert FlatRips(a).value + [] == FlatRips(a).value;
    }
  }

  /** The total weight of the lines whose address field is `x`: how many times `x` lands in `rips`. */
  function Weight(lines: seq<string>, x: string): nat
    requires forall j :: 0 <= j < |lines| ==> Sample(lines[j]).Some?
  {
    if |lines| == 0 then 0
    else
      var s := Sample(lines[|lines| - 1]).value;
      Weight(lines[..|lines| - 1], x) + (if s.0 == x && s.1 > 0 then s.1 else 0)
  }

  lemma RepeatCount(x: string, n: int, y: string)
    ensures multiset(Repeat(x, n))[y] == if x == y && n > 0 then n else 0
  {
    if n > 0 { RepeatCount(x, n - 1, y); }
  }

  /** Each address is sampled as often as the counts on its lines add up to. */
  lemma {:induction false} FlatRipsWeights(lines: seq<string>, x: string)
    requires FlatRips(lines).Ok?
    ensures forall j :: 0 <= j < |lines| ==> Sample(lines[j]).Some?
    ensures multiset(FlatRips(lines).value)[x] == Weight(lines, x)
  {
    FlatRipsOkIffWellFormed(lines);
    if |lines| > 0 {
      var n := |lines| - 1;
      FlatRipsWeights(lines[..n], x);
      var s := Sample(lines[n]).value;
      RepeatCount(s.0, s.1, x);
    }
  }

  // ---- the parser ----

  /** What `openrips` computes: the addresses, the backtraces, the mode and the failure count. */
  datatype Log = Log(rips: seq<string>, bts: seq<seq<string>>, isbt: bool, btfailed: nat)

  /** The parser's result as a function of the lines. */
  function ParseLog(lines: seq<string>): Result<Log, ParseError> {
    if HasSentinel(lines) then
      if Occ(lines, Failed) != 0 && |Backtraces(lines)| == 0 then Err(NoBacktraceClosed)
      else Ok(Log(Leaders(lines), Backtraces(lines), true, Occ(lines, Failed)))
    else
      match FlatRips(lines)
      case Ok(rips) => Ok(Log(rips, [], false, Occ(lines, Failed)))
      case Err(e) => Err(e)
  }

  /** A log without sentinels has no failure marker, so its failure count is zero. */
  lemma {:induction false} NoSentinelNoFailures(lines: seq<string>)
    requires !HasSentinel(lines)
    ensures Occ(lines, Failed) == 0
  {
    if |lines| > 0 {
      var p := lines[..|lines| - 1];
      assert !HasSentinel(p) by {
        forall i | 0 <= i < |p| ensures !IsSentinel(p[i]) { assert p[i] == lines[i]; }
      }
      NoSentinelNoFailures(p);
    }
  }

  lemma SentinelScanStep(p: seq<string>, l: string)
    ensures HasSentinel(p + [l]) <==> HasSentinel(p) || IsSentinel(l)
    ensures Occ(p + [l], Failed) == Occ(p, Failed) + (if l == Failed then 1 else 0)
  {
    var q := p + [l];
    assert q[..|p|] == p;
    assert q[|p|] == l;
    if HasSentinel(p) {
      var j :| 0 <= j < |p| && IsSentinel(p[j]);
      assert q[j] == p[j];
    }
    if HasSentinel(q) && !IsSentinel(l) {
      var j :| 0 <= j < |q| && IsSentinel(q[j]);
      assert p[j] == q[j];
    }
  }

  /**
   * A failure marker followed by a frame closes no backtrace, so the
   * failure rate `btfailed / len(bts)` has nothing to divide by.
   */
  lemma FailedWithoutBacktrace()
    ensures ParseLog([Failed, "ff30"]) == Err(NoBacktraceClosed)
  {
    var lines := [Failed, "ff30"];
    assert lines[..1] == [Failed] && [Failed][..0] == [];
    assert IsSentinel(lines[0]);
    assert Occ(lines, Failed) == 1 by {
      assert Occ([Failed], Failed) == 1;
    }
    assert Runs([Failed]) == [[], []] by {
      assert Runs([]) == [[]];
    }
    assert !IsSentinel("ff30") by { assert |"ff30"| != |Start|; }
    var rs: seq<seq<string>> := [[], []];
    assert rs[..1] == [[]];
    assert rs[1] + ["ff30"] == ["ff30"];
    assert Runs(lines) == rs[..1] + [rs[1] + ["ff30"]];
    assert Runs(lines) == [[], ["ff30"]];
    assert NonEmpty(rs[..1]) == [] by { assert rs[..1][..0] == []; }
    assert Backtraces(lines) == [];
  }

  /** `openrips` from the stripped, non-blank lines on. */
  method OpenRips(lines: seq<string>) returns (r: Result<Log, ParseError>)
    ensures r == ParseLog(lines)
  {
    var isbt, btfailed := ScanLog(lines);
    if isbt {
      var rips, bts := ReadBacktraces(lines);
      if btfailed != 0 && |bts| == 0 {
        return Err(NoBacktraceClosed);
      }
      r := Ok(Log(rips, bts, true, btfailed));
    } else {
      var flat := ReadSamples(lines);
      if flat.Err? {
        return Err(flat.error);
      }
      NoSentinelNoFailures(lines);
      r := Ok(Log(flat.value, [], false, btfailed));
    }
  }

  /** The first pass of `openrips`: whether any sentinel occurs, and how many failure markers. */
  method ScanLog(lines: seq<string>) returns (isbt: bool, btfailed: nat)
    ensures isbt == HasSentinel(lines)
    ensures btfailed == Occ(lines, Failed)
  {
    isbt := false;
    btfailed := 0;
    for i := 0 to |lines|
      invariant isbt == HasSentinel(lines[..i])
      invariant btfailed == Occ(lines[..i], Failed)
    {
      var l := lines[i];
      assert lines[..i + 1] == lines[..i] + [l];
      SentinelScanStep(lines[..i], l);
      if IsSentinel(l) {
        isbt := true;
      }
      if l == Failed {
        btfailed := btfailed + 1;
      }
    }
    assert lines[..|lines|] == lines;
  }

  /** Backtrace mode of `openrips`: the frame after each sentinel, and every closed run that is not empty. */
  method ReadBacktraces(lines: seq<string>) returns (rips: seq<string>, bts: seq<seq<string>>)
    ensures rips == Leaders(lines)
    ensures bts == Backtraces(lines)
  {
    rips, bts := [], [];
    var newbt: seq<string> := [];
    var ripnext := false;
    for i := 0 to |lines|
      invariant Scanned(lines[..i], rips, bts, newbt, ripnext)
    {
      var l := lines[i];
      assert lines[..i + 1] == lines[..i] + [l];
      if IsSentinel(l) {
        SentinelScanned(lines[..i], l, rips, bts, newbt, ripnext);
        if |newbt| > 0 {
          bts := bts + [newbt];
        }
        ripnext := true;
        newbt := [];
      } else {
        FrameScanned(lines[..i], l, rips, bts, newbt, ripnext);
        newbt := newbt + [l];
        if ripnext {
          ripnext := false;
          rips := rips + [l];
        }
      }
    }
    assert lines[..|lines|] == lines;
  }

  /** The state of the backtrace pass after the lines `p`: the open run, the closed backtraces, the leaders so far, and whether the next frame is a leader. */
  predicate Scanned(p: seq<string>, rips: seq<string>, bts: seq<seq<string>>, newbt: seq<string>, ripnext: bool) {
    var rs := Runs(p);
    && newbt == rs[|rs| - 1]
    && bts == NonEmpty(rs[..|rs| - 1])
    && rips == Firsts(rs[1..])
    && ripnext == (|rs| > 1 && newbt == [])
  }

  lemma SentinelScanned(p: seq<string>, l: string, rips: seq<string>, bts: seq<seq<string>>, newbt: seq<string>, ripnext: bool)
    requires IsSentinel(l) && Scanned(p, rips, bts, newbt, ripnext)
    ensures Scanned(p + [l], rips, bts + (if |newbt| > 0 then [newbt] else []), [], true)
  {
    SentinelStep(p, l);
  }

  lemma FrameScanned(p: seq<string>, l: string, rips: seq<string>, bts: seq<seq<string>>, newbt: seq<string>, ripnext: bool)
    requires !IsSentinel(l) && Scanned(p, rips, bts, newbt, ripnext)
    ensures Scanned(p + [l], if ripnext then rips + [l] else rips, bts, newbt + [l], false)
  {
    FrameStep(p, l);
  }

  /** Flat mode of `openrips`: each `rip _ count` line repeats `rip` count times; a malformed line is an error. */
  method ReadSamples(lines: seq<string>) returns (r: Result<seq<string>, ParseError>)
    ensures r == FlatRips(lines)
  {
    var rips: seq<string> := [];
    for i := 0 to |lines|
      invariant FlatRips(lines[..i]) == Ok(rips)
    {
      assert lines[..i + 1][..i] == lines[..i];
      var f := Fields(lines[i]);
      if |f| < 3 || ParseInt(f[2]).None? {
        FlatRipsFailsAtFirstBadLine(lines, i);
        FlatRipsOkIffWellFormed(lines[..i]);
        forall j | 0 <= j < i ensures Sample(lines[j]).Some? {
          assert lines[..i][j] == lines[j];
        }
        return Err(BadSampleLine(i));
      }
      var rip := f[0];
      var times := ParseInt(f[2]).value;
      ghost var before := rips;
      for k := 0 to if times < 0 then 0 else times
        invariant rips == before + Repeat(rip, k)
      {
        rips := rips + [rip];
      }
    }
    assert lines[..|lines|] == lines;
    r := Ok(rips);
  }

  /** A sentinel closes the current run: it joins the backtraces if non-empty, and a new empty run opens. */
  lemma SentinelStep(p: seq<string>, l: string)
    requires IsSentinel(l)
    ensures var rs, rs' := Runs(p), Runs(p + [l]);
      && |rs'| > 1
      && rs'[|rs'| - 1] == []
      && NonEmpty(rs'[..|rs'| - 1]) == NonEmpty(rs[..|rs| - 1]) + (if rs[|rs| - 1] != [] then [rs[|rs| - 1]] else [])
      && Firsts(rs'[1..]) == Firsts(rs[1..])
  {
    var rs := Runs(p);
    var q := p + [l];
    assert q[..|q| - 1] == p;
    var rs' := Runs(q);
    assert rs' == rs + [[]];
    assert rs'[..|rs'| - 1] == rs;
    assert rs[..|rs| - 1] == rs[..|rs|][..|rs| - 1];
    assert rs[..|rs|] == rs;
    assert rs'[1..] == rs[1..] + [[]];
    assert (rs[1..] + [[]])[..|rs| - 1] == rs[1..];
  }

  /** A frame extends the current run; it is a leader when that run was empty and follows a sentinel. */
  lemma FrameStep(p: seq<string>, l: string)
    requires !IsSentinel(l)
    ensures var rs, rs' := Runs(p), Runs(p + [l]);
      && rs'[|rs'| - 1] == rs[|rs| - 1] + [l]
      && |rs'| == |rs|
      && NonEmpty(rs'[..|rs'| - 1]) == NonEmpty(rs[..|rs| - 1])
      && Firsts(rs'[1..]) == Firsts(rs[1..]) + (if |rs| > 1 && rs[|rs| - 1] == [] then [l] else [])
  {
    var rs := Runs(p);
    var q := p + [l];
    assert q[..|q| - 1] == p;
    var rs' := Runs(q);
    var newbt := rs[|rs| - 1];
    assert rs' == rs[..|rs| - 1] + [newbt + [l]];
    assert rs'[..|rs'| - 1] == rs[..|rs| - 1];
    if |rs| > 1 {
      var mid := rs[1..|rs| - 1];
      assert rs'[1..] == mid + [newbt + [l]];
      assert (mid + [newbt + [l]])[..|mid|] == mid;
      assert rs[1..] == mid + [newbt];
      assert (mid + [newbt])[..|mid|] == mid;
    } else {
      assert rs'[1..] == [] && rs[1..] == [];
    }
  }
}
