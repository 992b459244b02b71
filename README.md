# xplfl — a Dafny model of the flag-space explorer

xplfl explores compiler-flag spaces. The inputs are a descriptor file and a set of base flags.

- The descriptor file holds one flag per line. A line is either a range such as `-finline-limit=[0..1000,100]` or a choice list such as `-O1|-O2|-O3`.
- A strategy generates candidate configurations, and each one is merged with the base flags.
- Every run reports its metrics on an `XRES` line. A results file records one line per run.
- The plotting helper reads the results file back. It scores every run against a reference, marks the runs that no other run beats on every metric (the frontier), and picks a tradeoff point.

The model covers both copies of the tool:

- `sources/xplfl.py`: the current Python 3 tool ("current" below).
- `xplfl.py`: the older Python 2 tool ("legacy").

It also covers the analysis half of `sources/graph-tmp.py`.

| file | module | what it holds |
|---|---|---|
| `wrappers.dfy` | `Wrappers` | `Option` |
| `text.dfy` | `Text` | Python string semantics: `strip`, `split`, `join`, `replace`, `int()`, `str()` of integers, string ordering |
| `flag_spec.dfy` | `FlagSpecs` | `opt_flag`: ranges and choices, `flag_name`, `rand`, `values`, `str` |
| `descriptors.dfy` | `Descriptors` | `opt_flag_list.__init__`: the descriptor-file parser |
| `cmdline.dfy` | `CommandLine` | `opt_flag_list.parse_line` |
| `merge.dfy` | `Merge` | `opt_flag_list.find` and `exploration.flags` |
| `results.dfy` | `Results` | `results.result`, `update`, the results-file line, `compute_decreases`, `compute_frontier` |
| `frontier.dfy` | `Frontier` | the working-set loop of both `compute_frontier` functions, over any strict dominance order |
| `runner.dfy` | `Runner` | `runner.quote_args` |
| `combinations.dfy` | `Combinations` | `itertools.product` as `gen_all_combinations` uses it |
| `strategies.dfy` | `Strategies` | decision rules of `gen_all_combinations`, `gen_tune`, `gen_one_by_one`, `loop_base` and `loop` |
| `graph.dfy` | `Graph` | `point_str`, `select_tradeoff`, `compute_frontier`, `getoptcases` and the partition in `optgraph` |

Randomness, the run results and the file system become explicit parameters:

- Each call to `rand` is replaced by the index it draws.
- The outcome of a run comes from an `outcome` function.
- Files are a map from names to lines.

Where the source raises, the model returns `None`.

Two behaviours of the code are worth stating up front:

- `select_tradeoff` breaks a tie on score toward the greatest variant, because it takes the last element of an ascending sort. Among equal keys it takes the last in input order.
- A range's step may be 0 or negative. The descriptor `[0..9,0]` gives step 0, and `rand` then raises. The model admits any step.

## Model

| member | source | states |
|---|---|---|
| FlagSpecs.Find | sources/xplfl.py:216 | `str.find`: -1 exactly when the character is absent, else the position of its first occurrence |
| FlagSpecs.CutAtEquals | sources/xplfl.py:216-218 | the token is cut after its first `=`; the result is a prefix of the token, with `=` at most once and only as its last character |
| FlagSpecs.FlagNameEquals | sources/xplfl.py:213-223 | the output of `flag_name` holds at most one `=`, and only as its last character |
| FlagSpecs.FlagNameOptLevel | sources/xplfl.py:221-222 | every token starting with `-O` is named `-O` |
| FlagSpecs.FlagNameNegation | sources/xplfl.py:219-220 | `-fno-X` is named `-f` followed by X cut at its first `=` |
| FlagSpecs.FlagNameIdempotent | sources/xplfl.py:213-223 | `flag_name` (`FlagName`) is idempotent on every token that does not start with `-fno-no-` |
| FlagSpecs.FlagNameDoubleNegation | sources/xplfl.py:219-220 | on `-fno-no-…` the name still starts with `-fno-`, and naming it again strips one more `no-` |
| FlagSpecs.FlagNameFixedPoint | sources/xplfl.py:213-223 | a token without `=` is its own name exactly when it does not start with `-fno-` and is either `-O` itself or does not start with `-O` |
| FlagSpecs.RandBoundCovers | xplfl.py:121-125 | with a positive step and `min <= max`, draw `k` gives a value in `[min, max]` exactly when `k <= (max-min)//step` |
| FlagSpecs.RangeDrawBounds | xplfl.py:121-125 | every admissible draw of `rand` (`Rand`) gives `min + k*step`, within `[min, max]` |
| FlagSpecs.RandBoundAsWrittenRefuses | sources/xplfl.py:184 | with true division, `[0..10,3]` hands `randint` a non-integral bound and raises; floor division gives 3 |
| FlagSpecs.RandBoundAsWrittenAgrees | sources/xplfl.py:184 | whenever the true-division bound is accepted, it equals the floor-division bound |
| FlagSpecs.Frange | sources/xplfl.py:193-197 | the `frange` generator yields values between `int(min)` and `max`, starting at `int(min)` |
| FlagSpecs.FrangeSorted | sources/xplfl.py:193-197 | the accumulator only grows by the step, so `frange` never yields a smaller value after a larger one |
| FlagSpecs.RangeIntsShape | sources/xplfl.py:190-200 | a range with `min <= max` starts at `min` and ends at `max`; it stays in `[min, max]`, never decreases, and holds at least `nb` values when `min < max` |
| FlagSpecs.RangeIntsEmpty | sources/xplfl.py:193-200 | with `max < min` the loop as written (negative step) yields nothing, and so does `RangeInts` |
| FlagSpecs.OnePointRangeNeverEnds | sources/xplfl.py:193-200 | on `[v..v]` the step is 0 and the loop yields `v` again at every turn |
| FlagSpecs.FrangeAsWrittenAgrees | xplfl.py:133-140 | with a positive step and enough turns, the loop as written yields exactly `Frange` |
| FlagSpecs.RenderRoundTrip | sources/xplfl.py:199 | every rendered value starts with the prefix, and the rest reads back as the integer |
| FlagSpecs.ChoiceValues | sources/xplfl.py:201-202 | a choice flag's values are its list, unchanged |
| FlagSpecs.RangeValues | sources/xplfl.py:192-200 | the loop collects exactly the rendered `RangeInts` |
| FlagSpecs.Values | sources/xplfl.py:190-203 | `values(nb)` of either kind of flag, equal to `FlagValues` (the rendered `RangeInts` of a range, the list of a choice) |
| Descriptors.Load | sources/xplfl.py:228-244 | the loop over the descriptor lines builds exactly `ParseFile` (the `ParseLine` of each line collected): one flag per non-comment line, `None` where a range bound is not an integer |
| Descriptors.CommentIgnored | sources/xplfl.py:233 | text after `#` does not change what a line parses to |
| Descriptors.RangeRoundTrip | sources/xplfl.py:205-210 | the line `str()` prints for a range flag, `PREFIX[min..max]` or `PREFIX[min..max,step]`, is matched by the range pattern and parses back to the same prefix, bounds and step |
| Descriptors.StrRoundTrip | sources/xplfl.py:205-210 | reading back the line `str()` (`Str`) prints gives the same flag |
| Descriptors.FileRoundTrip | xplfl.py:159-174 | a file of printed flags parses back to the same flag list |
| CommandLine.GlueArguments | sources/xplfl.py:263-271 | the index loop builds exactly `Fuse` of the words |
| CommandLine.ParseLine | xplfl.py:182-194 | `parse_line` equals `Fuse(Words(cmdline))` |
| CommandLine.WordsShape | sources/xplfl.py:260-262 | every word is non-empty and holds neither a space nor surrounding whitespace |
| CommandLine.ParseLinePreserves | sources/xplfl.py:259-271 | nothing is lost, invented or reordered: split at spaces the tokens give back the words, and both join to the same line |
| CommandLine.FuseTokenShape | sources/xplfl.py:266-268 | a token is one word, or a fuser (`--param`, `-mllvm`, `-Xclang`) followed by one word |
| CommandLine.FuseLoneFuserLast | sources/xplfl.py:266 | a fuser left alone can only be the last token |
| CommandLine.FuseEmpty | sources/xplfl.py:259-271 | no token exactly when there is no word |
| Merge.DrawBound | sources/xplfl.py:181-185 | the bound `rand` hands to `randint`: the floor-division bound in the legacy copy; in the current copy the same bound, but only when the step divides the width, and `None` otherwise |
| Merge.Owns | sources/xplfl.py:247-255 | the current copy matches a choice flag by membership; the test raises exactly for a range whose `DrawBound` is refused (in the current copy also whenever the step does not divide the width) or an empty choice list |
| Merge.OwnsAsWrittenRaises | sources/xplfl.py:253-254 | on a range with `=` in its prefix and a step that does not divide the width, the current copy's test raises, while the legacy copy's owns every token of that prefix |
| Merge.FindSpec | sources/xplfl.py:246-256 | `find` (`Find`) returns the first flag, in declaration order, that owns the token; no owner when none does; it raises exactly when an earlier test raises |
| Merge.LegacyChoiceByKey | xplfl.py:176-180 | the legacy copy matches choices by `flag_name`, so `-O3` finds `-O1`; the current copy does not |
| Merge.RangeKeyIgnoresDraw | sources/xplfl.py:253-254 | for a prefix with `=`, the name of the drawn value does not depend on the draw |
| Merge.Keys | sources/xplfl.py:389-391 | the keys exist exactly when no token's lookup raises, one key per token |
| Merge.KeysSpec | sources/xplfl.py:389-391 | a token's key is its owning flag, or the token itself when no flag owns it |
| Merge.KeptIff | sources/xplfl.py:393-394 | a position is kept exactly when no later token has the same key |
| Merge.KeptPositionsSpec | sources/xplfl.py:393-394 | the kept positions (`KeptPositions`) come out in ascending order, with distinct keys, and are exactly the last occurrences of their keys |
| Merge.KeptDistinct | xplfl.py:307-309 | no two kept tokens share a key |
| Merge.KeptCovers | xplfl.py:307-309 | every key of the line keeps its last occurrence |
| Merge.Flags | sources/xplfl.py:383-395 | the merge is defined exactly when no lookup raises |
| Results.Value | sources/xplfl.py:38-40 | `values[index]` with Python's negative indexing, `None` out of range or without values |
| Results.ValueLast | sources/xplfl.py:38-40 | `value(-1)` is the last metric, `None` for no values or an empty list |
| Results.Inner | sources/xplfl.py:46 | `s[1:-1]`: the string without its first and last characters |
| Results.LogLineFields | sources/xplfl.py:99-100 | the results-file line (`LogLine`) splits at `;` into the quoted flags, the run id and the metrics |
| Results.LogRoundTrip | sources/xplfl.py:43-46 | `fromstr` (`FromStr`) of the line written for a run gives back its run id, flags and metrics, when neither holds `;` |
| Results.ParseMetrics | sources/xplfl.py:82-87 | `None` for a non-zero status or no `XRES` line; otherwise, with `ws` the words after the first on the last `XRES` line, `Some` exactly when `ws` is non-empty and every word parses with `int()`, and then the vector of those integers, one per word |
| Results.ParseMetricsReadsLastLine | sources/xplfl.py:82-87 | the metrics are the integers after `XRES` on the last `XRES` line |
| Results.ResultStore.Update | sources/xplfl.py:81-101 | the entry of the run is replaced and no other entry changes; states the console line, and states that the results-file line is written only for metrics with a non-terminal stderr |
| Results.UpdateReadsBack | sources/xplfl.py:90-100 | the stored result equals what `fromstr` reads back from the line written for it |
| Results.LegacyMetric | xplfl.py:39-42 | `-1` for a non-zero status, no `XRES` line, or a last `XRES` line whose second word is missing or not an integer; otherwise that integer |
| Results.MetricVersions | xplfl.py:39-42 | when the current copy parses metrics, the legacy copy stores the first of them |
| Results.LegacyStore.Update | xplfl.py:37-47 | only the run's entry changes, to the legacy metric, and states the printed line |
| Results.DecreaseOfReference | sources/xplfl.py:71 | the reference's own decrease is 0 |
| Results.DecreaseOrder | sources/xplfl.py:71 | for `Decrease`, against a positive reference, a smaller metric has a strictly larger decrease |
| Results.ComputeDecreases | sources/xplfl.py:65-71 | `None` exactly when a reference metric a row needs is missing or 0; otherwise each row's decreases against the first result |
| Results.DominanceOrder | sources/xplfl.py:55-58 | dominance between results is a strict order |
| Results.ComputeFrontier | sources/xplfl.py:49-62 | a result is on the frontier exactly when no result has a different vector and strictly greater decreases in every dimension |
| Results.EqualNeverDominate | sources/xplfl.py:55-56 | results with equal value vectors never exclude each other |
| Results.FrontierPermuted | sources/xplfl.py:49-62 | reordering the results reorders the frontier the same way |
| Frontier.MaximalDominator | sources/xplfl.py:54-61 | a dominated result is dominated by one on the frontier |
| Frontier.FrontierStep | sources/xplfl.py:53-61 | testing a result against the frontier found so far and the results not yet visited decides whether it is on the frontier |
| Frontier.NoneDominates | sources/graph-tmp.py:311-316 | the scan over the results already on the frontier keeps `on_frontier` true exactly when none of them dominates the current result |
| Frontier.NoneInDominates | sources/xplfl.py:55-60 | the scan over the results not yet visited keeps `on_frontier` true exactly when none of them dominates the current result |
| Frontier.ComputeFrontier | sources/graph-tmp.py:307-318 | the working-set loop marks a result exactly when no result dominates it |
| Frontier.UndominatedPermuted | sources/graph-tmp.py:306-318 | renumbering the results renumbers the frontier |
| Runner.QuoteEach | sources/xplfl.py:113 | one escaped argument per argument, in order |
| Runner.UnescapeQuote | sources/xplfl.py:110-112 | removing the escaping backslashes gives the argument back |
| Runner.QuoteArgNoop | sources/xplfl.py:112 | an argument is left unchanged by `QuoteArg` exactly when all of its characters are in `-0-9a-zA-Z%+./:=@_` |
| Runner.QuoteArgLength | sources/xplfl.py:110-112 | escaping never shortens an argument and keeps only the empty one empty |
| Runner.QuoteArgsRoundTrip | sources/xplfl.py:109-113 | the logged line (`QuoteArgs`) splits at its unescaped spaces into the escaped arguments, each of which unescapes to the original |
| Combinations.ProductLength | sources/xplfl.py:465 | the number of combinations is the product of the domain sizes |
| Combinations.ProductMember | sources/xplfl.py:465 | the combinations are exactly the sequences taking their i-th value from the i-th domain |
| Combinations.ProductIndex | sources/xplfl.py:465 | lexicographic order: the first domain varies slowest |
| Strategies.AllCombinationsSpec | sources/xplfl.py:460-466 | `gen_all_combinations` yields every choice of one `values()` entry per flag, in declaration order, and nothing else |
| Strategies.Domains | xplfl.py:348-349 | one domain per flag: its `values()` with three samples |
| Strategies.Best | sources/xplfl.py:480-485 | the chosen trial is one of the trials, and it is eligible |
| Strategies.BestSpec | sources/xplfl.py:480-485 | `None` (the source raises) exactly when no trial is eligible; otherwise no eligible trial sorts before the chosen one by `(metric, len(value), run_id)`; eligible means non-zero for the current copy and positive for the legacy one (xplfl.py:385) |
| Strategies.BestUnique | xplfl.py:383-386 | with distinct run ids, the chosen trial sorts strictly before every other eligible trial |
| Strategies.ReplaceClobbers | sources/xplfl.py:486 | replacing a token by `""` with `str.replace` also removes it from the front of any longer token `pat + d` on the same line |
| Strategies.CommitAsWrittenClobbers | sources/xplfl.py:486 | committing `""` for `-g` in `-g -gdwarf` by `str.replace` yields `dwarf` |
| Strategies.Commit | sources/xplfl.py:486 | the corrected commit changes only the token's own position |
| Strategies.CommitKeepsNeighbours | sources/xplfl.py:486 | committing `""` for `-g` in `-g -gdwarf` yields `-gdwarf` |
| Strategies.TunedSpec | sources/xplfl.py:473-486 | for `Tuned`: a token without an owner is kept, a raising lookup fails, and an owned token gets an eligible value among its `Candidates` (`""` followed by `values(10)`) |
| Strategies.TuneTokens | sources/xplfl.py:473-486 | the loop over the tokens fails exactly when one token's tuning fails; otherwise each position holds its tuned value, committed at that position with the corrected `Commit` of the second finding rather than by `str.replace` on the text |
| Strategies.Tune | xplfl.py:372-388 | `gen_tune` over the tokens of `parse_line(base)`, giving the tuned token list built by `Commit`, not the source's `replace(...).strip()` text |
| Strategies.DistinctOne | sources/xplfl.py:448 | a row has exactly one distinct result exactly when it is non-empty and constant |
| Strategies.ClassifySame | sources/xplfl.py:446-450 | `Classify` gives SAME exactly when no result failed, there is a row, and every row is constant |
| Strategies.Where | sources/xplfl.py:442-450 | the positions holding one verdict, in increasing order |
| Strategies.Verdicts | sources/xplfl.py:443-450 | one verdict per flag, in declaration order |
| Strategies.Partition | sources/xplfl.py:442-450 | the loop fills the three lists exactly as `Where` |
| Strategies.ClassifyFlags | sources/xplfl.py:442-450 | `gen_one_by_one` sorts every flag into SAME, FAIL or KEEP |
| Strategies.ClassifyPartition | sources/xplfl.py:442-450 | every flag is in exactly one of the three lists |
| Strategies.LegacyCategories | xplfl.py:326-342 | GOOD excludes BAD and ERROR; ERROR and BAD meet only for a reference below -1; a run equal to a working reference is in no list |
| Strategies.Expand | sources/xplfl.py:507-511 | an entry that is not a file is split at commas and joins back to itself; a file entry gives exactly the non-empty lines of that file, each as many times as the file holds it |
| CommandLine.NonEmpty | sources/xplfl.py:509-510 | `filter(bool, …)` keeps exactly the non-empty strings, each as many times as the input holds it |
| CommandLine.NonEmptyAppend | sources/xplfl.py:509-510 | filtering keeps order: the filter of a concatenation is the concatenation of the filters |
| Strategies.LoopBase | sources/xplfl.py:505-514 | the loop builds exactly `ExpandAll` of the entries |
| Strategies.Capped | sources/xplfl.py:521-528 | the configurations run for one base are a prefix of the strategy's, cut at `maxiter` when it is at least 1 |
| Strategies.CappedSpec | sources/xplfl.py:527-528 | a `maxiter` of at least 1 bounds the runs per base; any other `maxiter` runs everything |
| Strategies.RunBase | sources/xplfl.py:521-528 | the inner loop pairs the base with each capped configuration |
| Strategies.Loop | sources/xplfl.py:517-528 | `loop` runs, base after base, exactly the capped configurations of each |
| Graph.ParsePointRoundTrip | sources/graph-tmp.py:323-329 | a results-file line reads back through `ParsePoint` as the point with that run id, time, size and flags |
| Graph.ParsePoints | sources/graph-tmp.py:322-329 | the loop over the lines gives `ParseAll`: every line parsed in order, `None` when one does not parse |
| Graph.FirstVariant | sources/graph-tmp.py:331-334 | the first point of the given variant, `None` when there is none |
| Graph.RefIndexSpec | sources/graph-tmp.py:330-336 | for `RefIndex`: a non-empty `refid` selects the first point of that variant and fails without one; otherwise the first point is the reference |
| Graph.ReferenceScores | sources/graph-tmp.py:337-339 | the reference's own speedup and size reduction are 0 |
| Graph.SpeedupOrder | sources/graph-tmp.py:338 | for positive times, a shorter time has a strictly larger speedup |
| Graph.SizeRedOrder | sources/graph-tmp.py:339 | against a positive size, a smaller size has a strictly larger reduction |
| Graph.Scores | sources/graph-tmp.py:337-339 | `None` exactly on a division by zero; otherwise each point's speedup and size reduction |
| Graph.ComputeFrontier | sources/graph-tmp.py:306-318 | a point is on the frontier exactly when no point has both a strictly larger speedup and a strictly larger size reduction |
| Graph.SameScoresNeverExclude | sources/graph-tmp.py:312-313 | points with the same two scores never exclude each other |
| Graph.FrontierPermuted | sources/graph-tmp.py:306-318 | the frontier does not depend on the order of the points |
| Graph.ScoreCases | sources/graph-tmp.py:337-340 | every point scored against the reference and marked exactly when it is on the frontier |
| Graph.GetOptCases | sources/graph-tmp.py:321-342 | `None` exactly when a line does not parse, there is no reference, or a division by zero occurs; otherwise every point scored and marked |
| Graph.LastMaxSpec | sources/graph-tmp.py:302-303 | the point `LastMax` chooses has the greatest `(score, variant)`, and every later point sorts strictly before it |
| Graph.SelectTradeoffSpec | sources/graph-tmp.py:291-303 | `SelectTradeoff` gives `None` exactly for an empty frontier; otherwise a frontier point maximising `ratio*speedup + sizered` with the greatest variant among points of that score |
| Graph.LabelFlags | sources/graph-tmp.py:271-273 | short labels cut flags of 28 or more characters to their first 25 followed by `...`; all others are unchanged |
| Graph.ShortLabelBound | sources/graph-tmp.py:272-273 | a short label never shows more than 28 characters of flags |
| Graph.Highlight | sources/graph-tmp.py:352-353 | a definition with commas must split into exactly regexp and legend, which rejoin to it; without a comma there is no legend |
| Graph.Highlights | sources/graph-tmp.py:350-353 | every definition unpacked into regexp and legend, or `None` exactly when one of them does not unpack |
| Graph.Patterns | sources/graph-tmp.py:350-359 | the regexp part of each unpacked definition, in order, followed by the catch-all `.*` |
| Graph.FirstMatch | sources/graph-tmp.py:364-367 | the first pattern matching the variant or the flags |
| Graph.Members | sources/graph-tmp.py:363-366 | a group holds exactly the points whose first matching pattern is its own, in order |
| Graph.GroupingSpec | sources/graph-tmp.py:362-367 | placing the points one by one keys a group by every pattern with points and lists exactly its members, in order |
| Graph.Partition | sources/graph-tmp.py:362-367 | the partition loop builds exactly `Grouping`: for every pattern with points, exactly its members |
| Graph.EveryPointPlaced | sources/graph-tmp.py:359-367 | with the catch-all `.*`, every point is placed in exactly one group |
| Text.IntRoundTrip | sources/xplfl.py:46 | `int()` of `str()` of an integer gives the integer back |
| Text.PyInts | sources/xplfl.py:46 | all words parsed by `int()`, or `None` when one word does not parse |

## Left out

- Threads, the semaphore, subprocesses, `runner.new_id`, logging and the command-line parser are not modelled. Each run is represented by its status and output lines.
- Randomness is replaced by explicit draws. `gen_random_uniform` and `gen_random_fixed` are not modelled, because they consist only of random choice.
- Printing is not modelled: the SAME, FAIL and BEST_FLAGS reports, and `gen_frontier`, which prints the flags of the frontier results.
- Plotting in `graph-tmp.py` is not modelled: `draw_graph`, the tradeoff plots, picking, signals and `partkeys`.
- Floating-point arithmetic is replaced by exact integers or reals. In `values`, the accumulator `min + k*(max-min)/(nb-1)` is computed exactly, so no IEEE rounding is claimed.
- Regular expressions: the descriptor regexp is modelled by hand. `optgraph` patterns are an abstract `matches` predicate.
- File reading: files are sequences of lines, and the file system is a map from names to lines.
- `cmdline or ''` in `parse_line`: the model has no `None` command line.
- `gen_base` is not modelled: it yields a single empty configuration.
- The generator protocol (`send`/`yield`) is not modelled.
- Graph.ParsePoint: `float()` of the time and size fields is modelled for integer syntax only.
- Graph.Partition: records the positions of the points, not the point objects.
- Results.ComputeFrontier: requires every result to have the same number of metrics. It also requires equal vectors to have equal decreases, which `ComputeDecreases` guarantees. Rows of different lengths are not modelled.
- Strategies.Tune: requires one draw vector per flag for each token. Each candidate value is one run, and `outcome(token, candidate)` gives its metric and run id.
- Strategies.Tune: commits each tuned value at its token's position (`Commit`), the corrected behaviour of the second finding. The source rewrites the configuration text with `new_flags.replace(flag_str, best).strip()`, which also rewrites longer tokens holding the token's text (`-g -gdwarf` with `-g` tuned to `""` ends as `dwarf`, where `Tune` gives `["", "-gdwarf"]`) and leaves double blanks inside the text. The candidate configurations run for each value are built by the same `replace` and are clobbered the same way; the model abstracts them into `outcome`.
- Strategies.BestUnique: assumes distinct run ids, which `new_id` provides.
- Strategies.Loop: models each strategy as the finite list of configurations it yields. It does not model how a strategy reacts to run results.
- FlagSpecs.Values: requires `nb >= 2`. Every caller passes 3, 6 or 10, and `nb = 1` divides by zero.
- Merge.Find: requires one draw per flag that fits the flag's range.
- Merge.Owns: follows `randint` of Python 3.7 to 3.11, which accepts an integral float. From Python 3.12 `randint` refuses every float, so every range lookup of the current copy raises; that is not modelled.
- Text.PyInt: accepts an optional sign and ASCII digits only. Python 3's `int()` also accepts `_` between digits (`1_000`) and non-ASCII decimal digits, so `ParseMetrics` and `PyInts` give `None` for `XRES 1_000`, where the current copy stores 1000.
- Text.IsSpace: is Python 3's whitespace set, used by `split()` and `strip()` in both copies. The legacy copy splits Python 2 byte strings, whose whitespace is only ASCII space, tab, newline, carriage return, vertical tab and form feed.

## Findings

| source | as written | input that shows it | evidently intended | confidence | as-written member | corrected member |
|---|---|---|---|---|---|---|
| sources/xplfl.py:184 | `(max - min) / step` is true division in Python 3, so `randint` receives a float bound | range `[0..10,3]`: the bound 3.33 is refused and `rand` raises | floor division, as in xplfl.py:124, giving the bound 3 | not executed | FlagSpecs.RandBoundAsWritten, FlagSpecs.RandBoundAsWrittenRefuses, Merge.OwnsAsWrittenRaises | FlagSpecs.RandBound, FlagSpecs.RandBoundCovers |
| sources/xplfl.py:477-486 | `new_flags.replace(flag_str, value)` replaces every occurrence of the token text, including inside longer tokens | base `-g -gdwarf`, tuning `-g` to `""` commits `dwarf` | replace only the tuned token, keeping `-gdwarf` | not executed | Strategies.CommitAsWritten, Strategies.ReplaceClobbers, Strategies.CommitAsWrittenClobbers | Strategies.Commit, Strategies.CommitKeepsNeighbours |
| sources/xplfl.py:193-200 | the step `(max - min)/(nb - 1)` is 0 for a one-point range, so `frange` never stops | range `[5..5]`: `values()` yields 5 forever | the single value 5 | not executed | FlagSpecs.FrangeAsWritten, FlagSpecs.OnePointRangeNeverEnds | FlagSpecs.RangeInts, FlagSpecs.RangeIntsShape |
