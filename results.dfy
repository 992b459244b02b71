/**
 * The results table of the exploration (`results`): one record per run,
 * built from the run's exit status and output lines, the results-file line
 * written for it and read back by `result.fromstr`, the relative decreases
 * of `compute_decreases` and the n-dimensional `compute_frontier`.
 */
module Results {
  import opened Wrappers
  import opened Text
  import Frontier

  /** `results.result`: a run id, its flags and its metric vector (`None` for a failed run). */
  datatype RunResult = RunResult(variant: string, flags: string, values: Option<seq<int>>)

  /** `result.value(index)`: Python indexing of the metric vector, `None` on any error. */
  function Value(r: RunResult, index: int): (v: Option<int>)
    ensures v.Some? <==> r.values.Some? && -|r.values.value| <= index < |r.values.value|
    ensures v.Some? && index >= 0 ==> v.value == r.values.value[index]
    ensures v.Some? && index < 0 ==> v.value == r.values.value[|r.values.value| + index]
  {
    match r.values
    case None => None
    case Some(vs) =>
      if 0 <= index < |vs| then Some(vs[index])
      else if -|vs| <= index < 0 then Some(vs[|vs| + index])
      else None
  }

  /** `value()` with its default index `-1` is the last metric of a run that has one. */
  lemma ValueLast(r: RunResult)
    ensures Value(r, -1).Some? <==> r.values.Some? && r.values.value != []
    ensures Value(r, -1).Some? ==> Value(r, -1).value == r.values.value[|r.values.value| - 1]
  {
  }

  // ------------------------------------------------------------------
  // the results file

  /** `s[1:-1]`: the text without its first and last characters. */
  function Inner(s: string): (r: string)
    ensures |s| >= 2 ==> s == [s[0]] + r + [s[|s| - 1]]
    ensures |s| < 2 ==> r == []
  {
    if |s| >= 2 then s[1..|s| - 1] else []
  }

  /**
   * `result.fromstr`: the fields of a results-file line; `None` where the
   * source raises (fewer than two fields, a metric that is not an integer).
   */
  function FromStr(line: string): (r: Option<RunResult>)
    ensures r.Some? ==> r.value.values.Some?
  {
    var words := Split(Strip(line), ';');
    if |words| < 2 then None
    else
      match PyInts(words[2..])
      case None => None
      case Some(vs) => Some(RunResult(words[1], Inner(words[0]), Some(vs)))
  }

  /** The line `update` appends to the results file: `"flags";run-id;v1;v2;...`. */
  function LogLine(config: string, runId: string, vs: seq<int>): string {
    "\"" + config + "\";" + runId + ";" + Join(IntStrings(vs), ";") + "\n"
  }

  /** The metrics joined with `;` end with a digit. */
  lemma {:induction false} JoinIntsEndsWithDigit(vs: seq<int>)
    requires vs != []
    ensures var j := Join(IntStrings(vs), ";"); j != [] && IsDigit(j[|j| - 1])
  {
    var ws := IntStrings(vs);
    if |vs| == 1 {
      assert Join(ws, ";") == ws[0];
    } else {
      assert vs[1..] != [];
      JoinIntsEndsWithDigit(vs[1..]);
      assert ws[1..] == IntStrings(vs[1..]);
    }
  }

  /** The fields of the results-file line, in order. */
  function LogFields(config: string, runId: string, vs: seq<int>): seq<string> {
    ["\"" + config + "\"", runId] + IntStrings(vs)
  }

  /** The results-file line is its fields joined with `;`, then a newline. */
  lemma LogLineJoin(config: string, runId: string, vs: seq<int>)
    requires vs != []
    ensures LogLine(config, runId, vs) == Join(LogFields(config, runId, vs), ";") + "\n"
  {
    var q := "\"" + config + "\"";
    var ws := IntStrings(vs);
    var j := Join(ws, ";");
    JoinTwoFront(q, runId, ws, ";");
    assert "\"" + config + "\";" == q + ";";
    calc {
      LogLine(config, runId, vs);
      q + ";" + runId + ";" + j + "\n";
      { Assoc(q + ";", runId, ";"); Assoc(q + ";", runId + ";", j); Assoc(runId, ";", j); }
      q + ";" + (runId + ";" + j) + "\n";
    }
  }

  /** A text with no blank at either end, followed by a newline, strips to itself. */
  lemma StripNewline(body: string)
    requires body != [] && !IsSpace(body[0]) && !IsSpace(body[|body| - 1])
    ensures Strip(body + "\n") == body
  {
    var t := body + "\n";
    assert LStrip(t) == t;
    assert t[..|t| - 1] == body;
    assert RStrip(t) == RStrip(body);
    StripNoop(body);
  }

  /** The joined fields start with a quote and end with a digit. */
  lemma LogFieldsEnds(config: string, runId: string, vs: seq<int>)
    requires vs != []
    ensures var j := Join(LogFields(config, runId, vs), ";");
      j != [] && j[0] == '"' && IsDigit(j[|j| - 1])
  {
    var q := "\"" + config + "\"";
    var ws := IntStrings(vs);
    var nums := Join(ws, ";");
    JoinIntsEndsWithDigit(vs);
    JoinTwoFront(q, runId, ws, ";");
    var pre, tail := q + ";", runId + ";" + nums;
    var j := pre + tail;
    assert tail[|tail| - 1] == nums[|nums| - 1];
    assert j[|j| - 1] == tail[|tail| - 1];
    assert j[0] == pre[0] == q[0];
  }

  /** No field of the results-file line holds a `;`. */
  lemma LogFieldsNoSemicolon(config: string, runId: string, vs: seq<int>)
    requires ';' !in config && ';' !in runId
    ensures forall i :: 0 <= i < |LogFields(config, runId, vs)| ==> ';' !in LogFields(config, runId, vs)[i]
  {
    var fs := LogFields(config, runId, vs);
    forall i | 0 <= i < |fs| ensures ';' !in fs[i] {
      if i >= 2 {
        assert fs[i] == IntToString(vs[i - 2]);
      }
    }
  }

  /** `strip()` and `split(';')` give back the fields of the results-file line. */
  lemma LogLineFields(config: string, runId: string, vs: seq<int>)
    requires ';' !in config && ';' !in runId && vs != []
    ensures Split(Strip(LogLine(config, runId, vs)), ';') == LogFields(config, runId, vs)
  {
    var fs := LogFields(config, runId, vs);
    LogLineJoin(config, runId, vs);
    LogFieldsEnds(config, runId, vs);
    StripNewline(Join(fs, ";"));
    LogFieldsNoSemicolon(config, runId, vs);
    SplitJoin(fs, ';');
  }

  /**
   * `result.fromstr` reads back the line written by `update`: same flags,
   * same run id, same metrics, as long as neither text holds a `;`.
   */
  lemma LogRoundTrip(config: string, runId: string, vs: seq<int>)
    requires ';' !in config && ';' !in runId && vs != []
    ensures FromStr(LogLine(config, runId, vs)) == Some(RunResult(runId, config, Some(vs)))
  {
    LogLineFields(config, runId, vs);
    var fields := LogFields(config, runId, vs);
    assert fields[2..] == IntStrings(vs);
    IntStringsRoundTrip(vs);
    assert Inner("\"" + config + "\"") == config;
  }

  // ------------------------------------------------------------------
  // reading a run's output

  /** The output lines that start with `XRES`, in order. */
  function XresLines(lines: seq<string>): seq<string> {
    if lines == [] then [] else XresKeep(lines[0]) + XresLines(lines[1..])
  }

  /** The line itself when it is a metrics line, nothing otherwise. */
  function XresKeep(line: string): seq<string> {
    if "XRES" <= line then [line] else []
  }

  /** `ws[1:]`. */
  function Rest(ws: seq<string>): seq<string> {
    if ws == [] then [] else ws[1..]
  }

  /** The whitespace-separated words of the last `XRES` line. */
  function LastXresWords(lines: seq<string>): seq<string>
    requires XresLines(lines) != []
  {
    var xres := XresLines(lines);
    SplitWs(xres[|xres| - 1])
  }

  /**
   * The metric vector `update` stores: the integers after the first word of
   * the last `XRES` line; `None` for a non-zero status, no such line, a word
   * that is not an integer, or no integer at all.
   */
  function ParseMetrics(status: int, lines: seq<string>): (r: Option<seq<int>>)
    ensures status != 0 || XresLines(lines) == [] ==> r.None?
    ensures status == 0 && XresLines(lines) != [] ==>
      var ws := Rest(LastXresWords(lines));
      (r.Some? <==> ws != [] && forall i :: 0 <= i < |ws| ==> PyInt(ws[i]).Some?)
      && (r.Some? ==> |r.value| == |ws| && forall i :: 0 <= i < |ws| ==> PyInt(ws[i]) == Some(r.value[i]))
    ensures r.Some? ==> r.value != []
  {
    if status != 0 then None
    else
      var xres := XresLines(lines);
      if xres == [] then None
      else
        match PyInts(Rest(SplitWs(xres[|xres| - 1])))
        case None => None
        case Some(vs) => if vs == [] then None else Some(vs)
  }

  /** The metrics line a run prints: `XRES v1 v2 ...`. */
  function XresLine(vs: seq<int>): string {
    Join(["XRES"] + IntStrings(vs), " ")
  }

  lemma XresLineWords(vs: seq<int>)
    ensures SplitWs(XresLine(vs)) == ["XRES"] + IntStrings(vs)
  {
    var ws := ["XRES"] + IntStrings(vs);
    forall i | 0 <= i < |ws| ensures IsWord(ws[i]) {
      if i > 0 {
        assert ws[i] == IntToString(vs[i - 1]);
        IntStringIsWord(vs[i - 1]);
      }
    }
    SplitWsJoin(ws);
  }

  lemma {:induction false} XresLinesAppend(a: seq<string>, b: seq<string>)
    ensures XresLines(a + b) == XresLines(a) + XresLines(b)
  {
    if a == [] {
      assert a + b == b;
    } else {
      var h, t := a[0], a[1..];
      var x := XresKeep(h);
      assert (a + b)[0] == h;
      assert (a + b)[1..] == t + b;
      assert XresLines(a + b) == x + XresLines(t + b);
      assert XresLines(a) == x + XresLines(t);
      XresLinesAppend(t, b);
      assert x + (XresLines(t) + XresLines(b)) == (x + XresLines(t)) + XresLines(b);
    }
  }

  lemma XresLinePrefix(vs: seq<int>)
    ensures "XRES" <= XresLine(vs)
  {
    var ws := IntStrings(vs);
    if ws != [] {
      assert (["XRES"] + ws)[1..] == ws;
      assert XresLine(vs) == "XRES" + " " + Join(ws, " ");
    }
  }

  lemma {:induction false} XresLinesNone(lines: seq<string>)
    requires forall l :: l in lines ==> !("XRES" <= l)
    ensures XresLines(lines) == []
  {
    if lines != [] {
      assert lines[0] in lines;
      assert forall l :: l in lines[1..] ==> l in lines;
      XresLinesNone(lines[1..]);
    }
  }

  /**
   * A successful run whose last `XRES` line carries the metrics `vs` has
   * exactly `vs` stored, whatever precedes that line.
   */
  lemma ParseMetricsReadsLastLine(before: seq<string>, vs: seq<int>, after: seq<string>)
    requires vs != []
    requires forall l :: l in after ==> !("XRES" <= l)
    ensures ParseMetrics(0, before + [XresLine(vs)] + after) == Some(vs)
  {
    XresLinePrefix(vs);
    XresLinesAppend(before + [XresLine(vs)], after);
    XresLinesAppend(before, [XresLine(vs)]);
    XresLinesNone(after);
    assert XresLines([XresLine(vs)]) == [XresLine(vs)];
    XresLineWords(vs);
    assert Rest(["XRES"] + IntStrings(vs)) == IntStrings(vs);
    IntStringsRoundTrip(vs);
  }

  /** The console line of `update`: `run-id XRES v1 v2 ... flags` or `run-id XFAIL flags`. */
  function ConsoleLine(runId: string, config: string, values: Option<seq<int>>): string {
    match values
    case Some(vs) => runId + " XRES " + Join(IntStrings(vs), " ") + " " + config + "\n"
    case None => runId + " XFAIL " + config + "\n"
  }

  /** The results table of the current copy: run id to result. */
  class ResultStore {
    var results: map<string, RunResult>

    constructor()
      ensures results == map[]
    {
      results := map[];
    }

    /**
     * `results.update`: stores the run's result under its id, and answers
     * the console line and, for a successful run while standard error is not
     * a terminal, the results-file line.
     */
    method Update(runId: string, config: string, status: int, lines: seq<string>, stderrIsTty: bool)
      returns (console: string, logLine: Option<string>)
      modifies this
      ensures results == old(results)[runId := RunResult(runId, config, ParseMetrics(status, lines))]
      ensures console == ConsoleLine(runId, config, ParseMetrics(status, lines))
      ensures logLine.Some? <==> ParseMetrics(status, lines).Some? && !stderrIsTty
      ensures logLine.Some? ==> logLine.value == LogLine(config, runId, ParseMetrics(status, lines).value)
    {
      var values := ParseMetrics(status, lines);
      results := results[runId := RunResult(runId, config, values)];
      console := ConsoleLine(runId, config, values);
      if values.Some? && !stderrIsTty {
        logLine := Some(LogLine(config, runId, values.value));
      } else {
        logLine := None;
      }
    }
  }

  /**
   * After `update`, the results-file line it wrote reads back as the stored
   * result, and every other run's entry is untouched.
   */
  lemma UpdateReadsBack(old_results: map<string, RunResult>, runId: string, config: string, status: int, lines: seq<string>)
    requires ';' !in config && ';' !in runId && ParseMetrics(status, lines).Some?
    ensures var stored := old_results[runId := RunResult(runId, config, ParseMetrics(status, lines))];
      && FromStr(LogLine(config, runId, ParseMetrics(status, lines).value)) == Some(stored[runId])
      && forall k :: k in old_results && k != runId ==> k in stored && stored[k] == old_results[k]
  {
    LogRoundTrip(config, runId, ParseMetrics(status, lines).value);
  }

  // ------------------------------------------------------------------
  // the legacy copy keeps one integer per run

  /**
   * The metric the legacy `update` stores: the integer in the second word of
   * the last `XRES` line, `-1` when anything fails.
   */
  function LegacyMetric(status: int, lines: seq<string>): (r: int)
    ensures status != 0 || XresLines(lines) == [] ==> r == -1
    ensures status == 0 && XresLines(lines) != [] ==>
      var ws := LastXresWords(lines);
      (|ws| < 2 || PyInt(ws[1]).None? ==> r == -1)
      && (|ws| >= 2 && PyInt(ws[1]).Some? ==> r == PyInt(ws[1]).value)
  {
    if status != 0 then -1
    else
      var xres := XresLines(lines);
      if xres == [] then -1
      else
        var words := SplitWs(xres[|xres| - 1]);
        if |words| < 2 then -1
        else match PyInt(words[1])
          case None => -1
          case Some(v) => v
  }

  /** Where the current copy stores metrics, the legacy copy stores the first one. */
  lemma MetricVersions(status: int, lines: seq<string>)
    requires ParseMetrics(status, lines).Some?
    ensures LegacyMetric(status, lines) == ParseMetrics(status, lines).value[0]
  {
    var xres := XresLines(lines);
    var words := SplitWs(xres[|xres| - 1]);
    var vs := PyInts(Rest(words)).value;
    assert Rest(words)[0] == words[1];
  }

  /** The legacy results table: run id to metric. */
  class LegacyStore {
    var results: map<string, int>

    constructor()
      ensures results == map[]
    {
      results := map[];
    }

    /** Legacy `results.update`: stores the metric under the run id and answers the console line. */
    method Update(runId: string, config: string, status: int, lines: seq<string>) returns (console: string)
      modifies this
      ensures results == old(results)[runId := LegacyMetric(status, lines)]
      ensures console == "XRES " + IntToString(LegacyMetric(status, lines)) + " " + runId + " " + config + "\n"
    {
      var res := LegacyMetric(status, lines);
      results := results[runId := res];
      console := "XRES " + IntToString(res) + " " + runId + " " + config + "\n";
    }
  }

  // ------------------------------------------------------------------
  // relative decreases

  /** `100 * (1 - v / ref)`, in exact arithmetic. */
  function Decrease(v: int, ref: int): real
    requires ref != 0
  {
    100.0 * (1.0 - (v as real) / (ref as real))
  }

  /** The reference run's own decreases are zero. */
  lemma DecreaseOfReference(ref: int)
    requires ref != 0
    ensures Decrease(ref, ref) == 0.0
  {
  }

  /** With a positive reference, a smaller metric is a larger decrease, and conversely. */
  lemma DecreaseOrder(v1: int, v2: int, ref: int)
    requires ref > 0
    ensures v1 < v2 <==> Decrease(v1, ref) > Decrease(v2, ref)
    ensures v1 == v2 <==> Decrease(v1, ref) == Decrease(v2, ref)
  {
    var r := ref as real;
    assert (v2 as real) / r - (v1 as real) / r == ((v2 - v1) as real) / r;
    if v1 < v2 {
      assert ((v2 - v1) as real) / r > 0.0;
    } else if v1 > v2 {
      assert ((v1 - v2) as real) / r > 0.0;
      assert (v1 as real) / r - (v2 as real) / r == ((v1 - v2) as real) / r;
    }
  }

  /** `compute_decreases` raises: no result, or a metric without a usable reference metric. */
  /** `row` has no more metrics than `ref`, and `ref` is non-zero wherever `row` has one. */
  predicate Covers(ref: seq<int>, row: seq<int>) {
    |row| <= |ref| && forall n :: 0 <= n < |row| ==> ref[n] != 0
  }

  /**
   * Every metric of every result has a non-zero counterpart in the first
   * result; otherwise `compute_decreases` raises (no first result, an index
   * past the end of the first result's metrics, or a division by zero).
   */
  predicate RefCovers(vals: seq<seq<int>>) {
    vals != [] && forall i :: 0 <= i < |vals| ==> Covers(vals[0], vals[i])
  }

  /**
   * `results.compute_decreases`: the decrease of every metric of every
   * result relative to the same metric of the first result.
   */
  method ComputeDecreases(vals: seq<seq<int>>) returns (r: Option<seq<seq<real>>>)
    ensures r.None? <==> !RefCovers(vals)
    ensures r.Some? ==> RefCovers(vals) && |r.value| == |vals| && forall i :: 0 <= i < |vals| ==>
      |r.value[i]| == |vals[i]| && forall n :: 0 <= n < |vals[i]| ==> r.value[i][n] == Decrease(vals[i][n], vals[0][n])
  {
    if vals == [] {
      return None;
    }
    var ref := vals[0];
    var acc: seq<seq<real>> := [];
    var i := 0;
    while i < |vals|
      invariant 0 <= i <= |vals| && |acc| == i
      invariant forall i' :: 0 <= i' < i ==> Covers(ref, vals[i'])
      invariant forall i' :: 0 <= i' < i ==>
        |acc[i']| == |vals[i']| && forall n :: 0 <= n < |vals[i']| ==> acc[i'][n] == Decrease(vals[i'][n], ref[n])
    {
      var row: seq<real> := [];
      var n := 0;
      while n < |vals[i]|
        invariant 0 <= n <= |vals[i]| && |row| == n
        invariant Covers(ref, vals[i][..n])
        invariant forall m :: 0 <= m < n ==> row[m] == Decrease(vals[i][m], ref[m])
      {
        if n >= |ref| || ref[n] == 0 {
          assert !Covers(ref, vals[i]);
          return None;
        }
        row := row + [Decrease(vals[i][n], ref[n])];
        n := n + 1;
      }
      assert vals[i][..n] == vals[i];
      acc := acc + [row];
      i := i + 1;
    }
    r := Some(acc);
  }

  // ------------------------------------------------------------------
  // the n-dimensional frontier

  /**
   * `c2` excludes `c1` from the frontier: different metric vectors, and a
   * strictly larger decrease on every metric of `c2`.
   */
  predicate Dominates(v2: seq<int>, d2: seq<real>, v1: seq<int>, d1: seq<real>)
    requires |d2| == |v2| && |d1| == |v2|
  {
    v2 != v1 && forall x :: 0 <= x < |v2| ==> d2[x] > d1[x]
  }

  /** Every result has as many metrics as the others, and decreases that follow from its metrics. */
  predicate Uniform(vals: seq<seq<int>>, decs: seq<seq<real>>) {
    && |decs| == |vals|
    && (forall i, j :: 0 <= i < |vals| && 0 <= j < |vals| ==> |vals[i]| == |vals[j]|)
    && (forall i :: 0 <= i < |vals| ==> |decs[i]| == |vals[i]|)
    && (forall i, j :: 0 <= i < |vals| && 0 <= j < |vals| && vals[i] == vals[j] ==> decs[i] == decs[j])
  }

  /** Dominance between result positions. */
  function DomOf(vals: seq<seq<int>>, decs: seq<seq<real>>): (nat, nat) -> bool
    requires Uniform(vals, decs)
  {
    (a: nat, b: nat) => a < |vals| && b < |vals| && Dominates(vals[a], decs[a], vals[b], decs[b])
  }

  /** Dominance between results of the same shape is a strict order. */
  lemma DominanceOrder(vals: seq<seq<int>>, decs: seq<seq<real>>)
    requires Uniform(vals, decs)
    ensures Frontier.StrictOrder(|vals|, DomOf(vals, decs))
  {
    var dom := DomOf(vals, decs);
    forall a: nat, b: nat, c: nat | a < |vals| && b < |vals| && c < |vals| && dom(a, b) && dom(b, c)
      ensures dom(a, c)
    {
      assert vals[a] != vals[b];
      assert decs[a][0] > decs[c][0];
    }
  }

  /**
   * `results.compute_frontier` on results with as many metrics each: a
   * result is on the frontier exactly when no result has a different metric
   * vector with a strictly larger decrease on every metric.
   */
  method ComputeFrontier(vals: seq<seq<int>>, decs: seq<seq<real>>) returns (on: seq<bool>)
    requires Uniform(vals, decs)
    ensures |on| == |vals|
    ensures forall i :: 0 <= i < |vals| ==>
      (on[i] <==> forall j :: 0 <= j < |vals| ==> !Dominates(vals[j], decs[j], vals[i], decs[i]))
  {
    DominanceOrder(vals, decs);
    var dom := DomOf(vals, decs);
    on := Frontier.ComputeFrontier(|vals|, dom);
    forall i | 0 <= i < |vals|
      ensures on[i] <==> forall j :: 0 <= j < |vals| ==> !Dominates(vals[j], decs[j], vals[i], decs[i])
    {
      forall j | 0 <= j < |vals| ensures dom(j, i) == Dominates(vals[j], decs[j], vals[i], decs[i]) {
      }
    }
  }

  /** Results with equal metric vectors never exclude each other. */
  lemma EqualNeverDominate(v: seq<int>, d1: seq<real>, d2: seq<real>)
    requires |d1| == |v| && |d2| == |v|
    ensures !Dominates(v, d1, v, d2)
  {
  }

  /** Result `i` is on the frontier: no result dominates it. */
  predicate OnFrontier(vals: seq<seq<int>>, decs: seq<seq<real>>, i: nat)
    requires Uniform(vals, decs) && i < |vals|
  {
    forall j :: 0 <= j < |vals| ==> !Dominates(vals[j], decs[j], vals[i], decs[i])
  }

  /**
   * The frontier does not depend on the order of the results: reordering
   * them by a bijection `perm` reorders the frontier the same way.
   */
  lemma FrontierPermuted(vals: seq<seq<int>>, decs: seq<seq<real>>, perm: seq<nat>, k: nat)
    requires Uniform(vals, decs) && |perm| == |vals| && k < |vals|
    requires forall a :: 0 <= a < |perm| ==> perm[a] < |vals|
    requires forall b: nat :: b < |vals| ==> b in perm
    ensures var vals2 := seq(|vals|, i requires 0 <= i < |vals| => vals[perm[i]]);
      var decs2 := seq(|vals|, i requires 0 <= i < |vals| => decs[perm[i]]);
      Uniform(vals2, decs2) && (OnFrontier(vals2, decs2, k) <==> OnFrontier(vals, decs, perm[k]))
  {
    var n := |vals|;
    var vals2 := seq(|vals|, i requires 0 <= i < |vals| => vals[perm[i]]);
    var decs2 := seq(|vals|, i requires 0 <= i < |vals| => decs[perm[i]]);
    assert Uniform(vals2, decs2);
    var dom, dom2 := DomOf(vals, decs), DomOf(vals2, decs2);
    Frontier.UndominatedPermuted(n, dom, dom2, perm, k);
    assert Frontier.Undominated(n, dom2, k) <==> OnFrontier(vals2, decs2, k) by {
      forall j | 0 <= j < n ensures dom2(j, k) == Dominates(vals2[j], decs2[j], vals2[k], decs2[k]) {
      }
    }
    assert Frontier.Undominated(n, dom, perm[k]) <==> OnFrontier(vals, decs, perm[k]) by {
      forall j | 0 <= j < n ensures dom(j, perm[k]) == Dominates(vals[j], decs[j], vals[perm[k]], decs[perm[k]]) {
      }
    }
  }
}
