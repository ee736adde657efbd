# munch: a verified model of biscuit's profile post-processor

`munch.py` turns the kernel's PMU sample logs into two things: an
attribution of samples to kernel functions, and a caller/callee graph. This
project models its algorithmic middle in Dafny and proves what that middle
promises. The `nm`, `sort` and `objdump` subprocesses and the file
handling around it are not modelled.

- **Log parser** (`openrips`, module `Profile`, file `profile.dfy`).
  - A log with either sentinel anywhere (`deadbeefdeadbeef`, or
    `feedfacefeedface` for a failed backtrace) is a backtrace log.
  - A backtrace log is split into sentinel-delimited backtraces.
    - `rips` gets the first frame after each sentinel.
    - `btfailed` counts every failure marker.
  - A flat log expands each `<addr> <x> <count>` line into `count` copies
    of `addr`.
  - The specification functions (`Runs`, `Backtraces`, `Leaders`,
    `FlatRips`, `ParseLog`) describe the result. The three loops of the
    source are methods proved equal to them.
- **Address-space split** (`isuser`, `divrips`, module `AddressSpace`).
  This is a stable partition by the prefix `00002c8`.
- **Symbol range table** (module `Symbols`).
  - `getsmap` keeps the `nm` lines that have exactly three fields.
  - `getsmap2` turns them into `(name, start, next start)` ranges. The last
    range ends at `0x7fffffffffffffff`.
- **Merge-scan resolver** (`rip2func`, module `Resolver`).
  - A forward-only cursor walks the range table, and each address is filed
    under the name of the first range from the cursor on that holds it.
  - The cursor overrunning the table is the failure `RipNotFound`. The
    `ValueError` after the scan loop is proved unreachable.
  - The ranking `fin` is sorted, then reversed.
- **Call-graph aggregation** (`gnode`, `graph` and `callers`, modules
  `CallGraph` and `Callers`).
  - Nodes are classes with mutable `cees` and `samps` fields, created on
    demand and keyed by name. All user addresses share the node `USER`.
  - The top callers are the nodes with more than one percent of the
    samples.
  - Each top caller's callees are ranked by call count.

Supporting modules:

- `Wrappers`: `Option` and `Result`.
- `Text`: models Python's `str.split()`, `int(s, 16)` and `int(s)`.
- `Order`:
  - lexical string order, which agrees with numeric order on lower-case
    hex strings of one width (`HexOrderIsLexOrder`); across widths it can
    disagree (`"100"` against `"ff"`, `MixedWidthsDisagree`);
  - an insertion sort for strings, and one for `(count, name)` pairs.

In these places the model follows the code as written:

- `samps` counts frames, not samples, although the comment on lines
  202-203 describes it as a sample count (the code is lines 255-257). A
  function that calls itself is therefore counted twice in one sample.
- `fin.sort(); fin.reverse()` (lines 129-130) breaks ties between equal
  counts by name *descending*.
- A run of frames in front of the first sentinel is closed by that
  sentinel (lines 33-37) and becomes a backtrace. It contributes no entry
  to `rips`.

The float ranking of `callers` is restated in integers:

- `frac > 0.01` is `100 * samps > len(bts)`.
- The callee key `c.frac * times / c.samps` equals `times / len(bts)`,
  because `c.frac` is `c.samps / len(bts)`. `c.samps` is at least `times`
  and so positive (`CallCountBounded`). Callees are therefore ranked by
  call count.

Python breaks ties in `sorted` by dict order, which is unspecified. The
model orders fully by `(count, name)` descending, which is one admissible
order.

## Model

| member | source | states |
|---|---|---|
| Text.Fields | biscuit/src/kernel/munch.py:44 | `split()` yields only non-empty, whitespace-free fields |
| Text.FieldsOfJoin | biscuit/src/kernel/munch.py:82 | splitting fields joined by blanks gives back exactly those fields |
| Text.FieldsIgnoreTrailingSpace | biscuit/src/kernel/munch.py:79-82 | trailing whitespace does not change the fields, so stripping before `split()` is harmless |
| Text.HexOf | biscuit/src/kernel/munch.py:109 | the value of `width` hex digits is below 16^width |
| Text.HexString | biscuit/src/kernel/munch.py:71-75 | zero-padded hex rendering has exactly the given width and only hex digits |
| Text.ParseHexString | biscuit/src/kernel/munch.py:95 | `int(s, 16)` of a zero-padded rendering gives the number back |
| Text.HexStringOfParse | biscuit/src/kernel/munch.py:109 | the other round trip for `int(s, 16)`: a non-empty lower-case hex string parses to a value whose zero-padded rendering is the string itself |
| Text.DecString | biscuit/src/kernel/munch.py:46 | the decimal rendering of any integer is one non-empty word |
| Text.ParseIntDecString | biscuit/src/kernel/munch.py:46 | `int(s)` of the decimal rendering of any integer, negative ones included, gives the integer back |
| Order.HexOrderIsLexOrder | biscuit/src/kernel/munch.py:244 | on lower-case hex strings of one width, string order holds exactly when numeric order does |
| Order.MixedWidthsDisagree | biscuit/src/kernel/munch.py:244 | across widths the two orders can disagree: "100" sorts before "ff" though 0x100 > 0xff, so the equal-width condition of `HexOrderIsLexOrder` is needed |
| Order.SortLex | biscuit/src/kernel/munch.py:244 | `rips.sort()` gives a lexically sorted permutation of its input |
| Order.SortThenReverse | biscuit/src/kernel/munch.py:129-130 | sorting distinct (count, name) pairs and reversing gives a strictly descending permutation |
| Order.DescendingUnique | biscuit/src/kernel/munch.py:129-130 | two strictly descending lists with the same members are equal, so the ranking is determined by its members |
| Profile.ScanLog | biscuit/src/kernel/munch.py:19-26 | the first pass sets `isbt` exactly when some line is a sentinel, and `btfailed` to the number of failure markers |
| Profile.ReadBacktraces | biscuit/src/kernel/munch.py:27-42 | the backtrace pass returns the leaders and the closed non-empty runs |
| Profile.ReadSamples | biscuit/src/kernel/munch.py:43-48 | the flat pass returns each line's address repeated by its count, in line order, or fails at the first malformed line |
| Profile.OpenRips | biscuit/src/kernel/munch.py:19-53 | the parser's result: backtrace mode when a sentinel occurs, leaders, backtraces and failure count, or the division by zero of line 51 when failure markers occur and no backtrace is closed; flat mode with no backtraces otherwise |
| Profile.FailedWithoutBacktrace | biscuit/src/kernel/munch.py:50-51 | the log `feedfacefeedface`, `ff30` counts one failure and closes no backtrace, so the failure rate divides by zero |
| Profile.Backtraces | biscuit/src/kernel/munch.py:33-39 | every backtrace is non-empty and free of sentinels |
| Profile.RunsRejoin | biscuit/src/kernel/munch.py:31-39 | k sentinels cut the log into k+1 maximal runs, and putting runs and sentinels back together gives the log |
| Profile.FramesConserved | biscuit/src/kernel/munch.py:33-39 | the backtraces followed by the unclosed last run are all the non-sentinel lines in file order, so exactly the trailing run is dropped |
| Profile.LeadersFollowSentinels | biscuit/src/kernel/munch.py:36-42 | `rips` in a backtrace log is exactly the non-sentinel lines directly after a sentinel, in file order |
| Profile.SampleOfLine | biscuit/src/kernel/munch.py:44-46 | a flat line written as address, any second word and a decimal count is read back as exactly that address and count |
| Profile.NoSentinelNoFailures | biscuit/src/kernel/munch.py:19-26 | a flat log has a failure count of zero |
| Profile.FlatRipsFailsAtFirstBadLine | biscuit/src/kernel/munch.py:44-46 | a flat log fails with line i exactly when line i is the first that lacks a third field or a decimal count |
| Profile.FlatRipsOkIffWellFormed | biscuit/src/kernel/munch.py:44-48 | a flat log parses exactly when every line is a well-formed sample |
| Profile.FlatRipsAppend | biscuit/src/kernel/munch.py:43-48 | the flat addresses of two logs put together are the two logs' addresses put together |
| Profile.FlatRipsWeights | biscuit/src/kernel/munch.py:45-48 | each address occurs in `rips` as often as its lines' counts add up to |
| AddressSpace.UserSpan | biscuit/src/kernel/munch.py:55-56 | for lower-case hex addresses of one width w >= 7, `isuser` holds exactly on the numeric range [0x2c8 * 16^(w-7), 0x2c9 * 16^(w-7)) |
| AddressSpace.DivRips | biscuit/src/kernel/munch.py:58-66 | `ur` and `kr` are the user and kernel addresses, in input order |
| AddressSpace.PartitionCounts | biscuit/src/kernel/munch.py:58-66 | the two lists together are a permutation of the input and their lengths add up to its length |
| AddressSpace.PartitionMembers | biscuit/src/kernel/munch.py:55-66 | an address is in `ur` exactly when it is an input with prefix `00002c8`, and in `kr` exactly when it is one without |
| AddressSpace.PartitionStable | biscuit/src/kernel/munch.py:58-66 | the partition of two lists put together is the two partitions put together, so both keep input order |
| Symbols.EntryOf | biscuit/src/kernel/munch.py:79-85 | a line yields an entry exactly when it has three fields, and the entry's address, type and name are those three fields in order |
| Symbols.EntryOfLine | biscuit/src/kernel/munch.py:82-85 | a line of three blank-separated words is kept as exactly the entry of those words |
| Symbols.GetSymbolMap | biscuit/src/kernel/munch.py:77-86 | the filter loop returns the three-field entries in line order |
| Symbols.SymbolEntriesKeepThreeFields | biscuit/src/kernel/munch.py:77-86 | an entry is kept exactly when some line has it as its three fields |
| Symbols.SymbolEntriesAppend | biscuit/src/kernel/munch.py:78-85 | the filter works line by line, keeping order |
| Symbols.GetSmap2 | biscuit/src/kernel/munch.py:90-100 | the range loop returns the range table, or fails at the first address `int(s, 16)` rejects |
| Symbols.FirstBadAddr | biscuit/src/kernel/munch.py:95-98 | the index reported is the first entry with a malformed address |
| Symbols.RangeTableShape | biscuit/src/kernel/munch.py:90-100 | the table is contiguous, ends at 0x7fffffffffffffff, and ascends when the entries are sorted by address |
| Symbols.CoveredOnce | biscuit/src/kernel/munch.py:116 | in a contiguous ascending table, an address between the first start and the last end lies in exactly one range |
| Symbols.OutsideCovered | biscuit/src/kernel/munch.py:116 | an address outside that span lies in no range |
| Resolver.Scan | biscuit/src/kernel/munch.py:111-122 | the inner loop stops at the first range from the cursor that holds the address, or runs off the table |
| Resolver.CursorShape | biscuit/src/kernel/munch.py:107-124 | on success there is one hit per address: its parsed value inside its range, the cursor never decreasing |
| Resolver.ScanBelowFails | biscuit/src/kernel/munch.py:111-122 | an address below the current range makes the cursor run off the table |
| Resolver.OwnersWithinTable | biscuit/src/kernel/munch.py:107-124 | on success every address parses and lies between the first start and the last end |
| Resolver.OwnersSucceed | biscuit/src/kernel/munch.py:102-124 | ascending addresses inside the table's span all resolve |
| Resolver.SortedTextResolves | biscuit/src/kernel/munch.py:102-124 | lexically sorted lower-case hex strings of one width inside the span all resolve |
| Resolver.SelectSound | biscuit/src/kernel/munch.py:116-119 | every address filed under a name lies in a range of that name |
| Resolver.SumSelectTotal | biscuit/src/kernel/munch.py:117-119 | the lists filed under the names hold every address exactly once in total |
| Resolver.RankByCount | biscuit/src/kernel/munch.py:126-130 | `fin` is strictly descending, with one (length of the list, name) pair per key |
| Resolver.RankedTotal | biscuit/src/kernel/munch.py:126-130 | the counts in `fin` add up to the number of addresses |
| Resolver.Rip2Func | biscuit/src/kernel/munch.py:103-131 | `rip2func` fails exactly as the cursor scan does; otherwise `ipbyname` holds each name's addresses in input order, and `fin` ranks them with counts adding up to the input length |
| CallGraph.FrameNameOfAddress | biscuit/src/kernel/munch.py:222-227 | the node `nodebyrip` picks for a frame of w lower-case hex digits: `USER` exactly for addresses in the user range, otherwise the function `rip2syms` gives the address, or the KeyError |
| CallGraph.GNode.constructor | biscuit/src/kernel/munch.py:199-205 | a new node has its name, no callees and no samples |
| CallGraph.GNode.Called | biscuit/src/kernel/munch.py:207-211 | `called` adds one to that one callee's count, starting it at zero, and changes nothing else |
| CallGraph.Graph.constructor | biscuit/src/kernel/munch.py:218-220 | a new graph has no nodes and keeps `rip2syms` |
| CallGraph.Graph.EnsureNode | biscuit/src/kernel/munch.py:229-234 | returns the node already under that name, or adds exactly one fresh empty node under it; no count changes |
| CallGraph.Graph.NodeByRip | biscuit/src/kernel/munch.py:222-227 | user addresses give `USER`, others the function `rip2syms` names, with ValueError and KeyError as errors |
| CallGraph.CountFrame | biscuit/src/kernel/munch.py:256-257 | one frame adds one to its node's `samps` |
| CallGraph.CountCall | biscuit/src/kernel/munch.py:261-263 | one adjacent pair adds one to the caller-to-callee edge |
| CallGraph.AddSamples | biscuit/src/kernel/munch.py:255-257 | a backtrace adds its number of frames of each name to that node |
| CallGraph.AddCalls | biscuit/src/kernel/munch.py:260-263 | a backtrace adds its number of (bt[i+1], bt[i]) pairs to each edge |
| CallGraph.AddBacktraces | biscuit/src/kernel/munch.py:252-263 | after all backtraces the nodes are exactly the names with a frame, `samps` is each name's frame count and each edge holds its pair count |
| CallGraph.FrameCountPositive | biscuit/src/kernel/munch.py:253-257 | a name has a positive count exactly when some backtrace holds it, and never more than the total frames |
| CallGraph.FrameCountCoversSamples | biscuit/src/kernel/munch.py:202-204 | `samps` is at least the number of samples holding the node, and equal when no backtrace holds it twice |
| CallGraph.RecursionCountsTwice | biscuit/src/kernel/munch.py:255-263 | a backtrace `f, f` gives `f` two frames, one sample and one self-call |
| CallGraph.SelfCallOvercounts | biscuit/src/kernel/munch.py:255-257 | whenever some backtrace holds a call of a function by itself, that node's `samps` exceeds the number of samples that hold it |
| CallGraph.CallCountBounded | biscuit/src/kernel/munch.py:300-303 | an edge count never exceeds either end's `samps`, so the callee key never divides by zero and `fromme` is at most one |
| CallGraph.SampsConserved | biscuit/src/kernel/munch.py:253-257 | summed over all node names, `samps` gives the total number of frames |
| CallGraph.CallsConserved | biscuit/src/kernel/munch.py:259-263 | summed over all edges, the call counts give the total of len(bt) - 1 over the backtraces |
| Callers.Concat | biscuit/src/kernel/munch.py:241-243 | every frame of every backtrace, in order |
| Callers.KernelRipsSorted | biscuit/src/kernel/munch.py:244-245 | dropping the user addresses from text-sorted addresses leaves them sorted |
| Callers.KernelAddressesResolve | biscuit/src/kernel/munch.py:241-246 | when every kernel frame is a lower-case hex string of one width inside the table's span, the text-sorted kernel addresses are sorted and `rip2func` on them succeeds, so `callers` does not fail |
| Callers.InvertIndex | biscuit/src/kernel/munch.py:247-250 | `rip2syms` has exactly the filed addresses, each mapped to a function that lists it |
| Callers.KernelFramesResolve | biscuit/src/kernel/munch.py:244-257 | once `rip2func` succeeds on the sorted kernel frames, every frame of every backtrace has a node |
| Callers.AttributedByScan | biscuit/src/kernel/munch.py:246-250 | each address of `rip2syms` lies in a range of the function it is mapped to |
| Callers.TopCallers | biscuit/src/kernel/munch.py:286-287 | the top callers are exactly the nodes with 100 * samps > len(bts), strictly descending |
| Callers.CalleesOf | biscuit/src/kernel/munch.py:300 | a caller's callee list holds exactly its edges with their counts, strictly descending |
| Callers.CalleeLists | biscuit/src/kernel/munch.py:296-300 | one such callee list per top caller |
| Callers.Rankings | biscuit/src/kernel/munch.py:286-300 | both rankings stated in the frame and call counts of the backtraces |
| Callers.Callers | biscuit/src/kernel/munch.py:239-300 | `callers` fails exactly when the resolver fails on the sorted kernel frames; otherwise it ranks the top callers by frame count above one percent, with callees by call count |

## Left out

- The subprocesses `nm -C`, `sort` and `objdump` (lines 69-75, 146-149) are external tools. The model starts from their output lines. `Callers.Callers` takes the range table that `getsmap2` builds as a parameter.
- File reading and closing in `openrips` (lines 15-17, 49) is I/O. `Profile.OpenRips` starts from the lines after stripping, with blank lines dropped.
- The failure-rate message (lines 50-52) is printing with float division and is left out. Its division by zero is kept: `Profile.OpenRips` returns `Err(NoBacktraceClosed)` where line 51 raises `ZeroDivisionError`.
- `disass` (lines 133-167) scrapes `objdump` text and prints. `dumpsec` and `dump` (lines 169-196) print reports with float fractions.
- `gnode.callees` (lines 214-215) only returns `cees`, and `graph.nodes` (lines 236-237) only returns the nodes. The model reads `cees` and `nodes` directly.
- The floats `frac` and `maxfrac` (lines 205, 264-269) and the `graph.dot` export (lines 271-284) are left out. The ranking is stated in the integers they come from.
- The printing in `callers` (lines 288-304) is left out. The model returns what would be printed: the top callers and each one's callee list with counts.
- The command line (`getopt`, `usage`) and the module-level driver (lines 8-12, 307-325) are left out.
- Text.ParseHex: models `int(s, 16)` only on bare hex digits; it rejects the `0x` prefix, sign and surrounding whitespace that Python 2 accepts. Profile lines and `nm` addresses are bare hex as written, but `rip2func` (line 109) and `nodebyrip` (line 226) parse whole stripped backtrace lines, which are never split: a prefixed or signed frame such as `0xffffffff80100000` or `-ff` is `BadRip` in the model, so `Callers.Callers` returns `Err`, where Python parses it.
- Text.ParseInt: models `int(s)` as an optional sign followed by ASCII digits, with no surrounding whitespace and no other Unicode digits.
- Resolver.Rip2Func: `fin` is promised only as a strictly descending list of the (count, name) pairs. Python's tuple order is the same order, so `Order.DescendingUnique` makes this the exact result.
- Callers.TopCallers: Python sorts the nodes by `samps` alone, so equal counts come out in dict order. The model breaks those ties by name, descending, and promises only strict (count, name) descent.
- Callers.CalleesOf: Python sorts the callees by the float key alone. The model ranks by call count, which gives the same order, then breaks ties by name. Float rounding of the key is not modelled.
- Callers.InvertIndex: when two functions list the same address, Python's dict order decides which one `rip2syms` keeps. The model promises only some function that lists the address. Under a contiguous, ascending table, `Symbols.CoveredOnce` makes that function unique.
- CallGraph.SampsConserved and CallGraph.CallsConserved: stated over any list of distinct names (or pairs) that covers every frame (or adjacent pair), not over the graph's key set directly. `CallGraph.AddBacktraces` makes the keys exactly the names with a frame.
- Integer width needs no modelling: Python 2 promotes `int` to the unbounded `long`, and Dafny's `int` is unbounded too.
