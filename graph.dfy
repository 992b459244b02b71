/**
 * The analysis half of the plotting helper `graph-tmp.py`: reading the
 * results file into points, choosing the reference point, the speedup and
 * size reduction of every point, the two-dimensional frontier, the choice
 * of a tradeoff point, the label text of a point and the partition of the
 * points into highlighted groups.
 */
module Graph {
  import opened Wrappers
  import opened Text
  import Frontier
  import Results

  // ------------------------------------------------------------------
  // points

  /** One line of the results file: variant (run id), time, size and flags. */
  datatype Point = Point(variant: string, time: int, size: int, flags: string)

  /** A point with its scores relative to the reference, and its place on the frontier. */
  datatype Case = Case(point: Point, speedup: real, sizered: real, onFrontier: bool)

  /**
   * One results-file line: `"flags";variant;time;size;...`, `None` where
   * the source raises (fewer than four fields, or a time or size that is
   * not a number).
   */
  function ParsePoint(line: string): Option<Point> {
    PointOf(Split(Strip(line), ';'))
  }

  /** The point the fields of one line describe. */
  function PointOf(words: seq<string>): Option<Point> {
    if |words| < 4 then None
    else
      match (PyInt(words[2]), PyInt(words[3]))
      case (Some(time), Some(size)) => Some(Point(words[1], time, size, Results.Inner(words[0])))
      case _ => None
  }

  /** The plot reads back the line the exploration wrote for a run whose first metrics are time and size. */
  lemma ParsePointRoundTrip(config: string, runId: string, time: int, size: int, more: seq<int>)
    requires ';' !in config && ';' !in runId
    ensures ParsePoint(Results.LogLine(config, runId, [time, size] + more)) == Some(Point(runId, time, size, config))
  {
    var vs := [time, size] + more;
    Results.LogLineFields(config, runId, vs);
    PointOfFields(config, runId, time, size, more);
  }

  lemma PointOfFields(config: string, runId: string, time: int, size: int, more: seq<int>)
    ensures PointOf(Results.LogFields(config, runId, [time, size] + more)) == Some(Point(runId, time, size, config))
  {
    var q := "\"" + config + "\"";
    var fields := Results.LogFields(config, runId, [time, size] + more);
    var t, z := IntToString(time), IntToString(size);
    assert fields[0] == q && fields[1] == runId && fields[2] == t && fields[3] == z;
    IntRoundTrip(time);
    IntRoundTrip(size);
    QuotedInner(config);
    PointOfParsed(fields, time, size);
  }

  /** A quoted text loses exactly its quotes. */
  lemma QuotedInner(config: string)
    ensures Results.Inner("\"" + config + "\"") == config
  {
    var q := "\"" + config + "\"";
    assert q[1..|q| - 1] == config;
  }

  /** Four fields or more, whose third and fourth parse, make a point. */
  lemma PointOfParsed(words: seq<string>, time: int, size: int)
    requires |words| >= 4 && PyInt(words[2]) == Some(time) && PyInt(words[3]) == Some(size)
    ensures PointOf(words) == Some(Point(words[1], time, size, Results.Inner(words[0])))
  {
  }

  /** Every line of the file parsed, in order; `None` when one of them does not parse. */
  function ParseAll(lines: seq<string>): Option<seq<Point>> {
    if forall i :: 0 <= i < |lines| ==> ParsePoint(lines[i]).Some? then
      Some(seq(|lines|, i requires 0 <= i < |lines| => ParsePoint(lines[i]).value))
    else None
  }

  /** The loop of `getoptcases` over the lines of the results file. */
  method ParsePoints(lines: seq<string>) returns (r: Option<seq<Point>>)
    ensures r == ParseAll(lines)
  {
    var points: seq<Point> := [];
    var i := 0;
    while i < |lines|
      invariant 0 <= i <= |lines| && |points| == i
      invariant forall m :: 0 <= m < i ==> ParsePoint(lines[m]) == Some(points[m])
    {
      var p := ParsePoint(lines[i]);
      if p.None? {
        return None;
      }
      points := points + [p.value];
      i := i + 1;
    }
    assert points == seq(|lines|, i requires 0 <= i < |lines| => ParsePoint(lines[i]).value);
    return Some(points);
  }

  // ------------------------------------------------------------------
  // the reference point

  /** The first point from position `j` on whose variant is `id`. */
  function FirstVariant(points: seq<Point>, id: string, j: nat): (r: Option<nat>)
    requires j <= |points|
    ensures r.Some? ==> (j <= r.value < |points| && points[r.value].variant == id &&
      forall i :: j <= i < r.value ==> points[i].variant != id)
    ensures r.None? ==> forall i :: j <= i < |points| ==> points[i].variant != id
    decreases |points| - j
  {
    if j == |points| then None
    else if points[j].variant == id then Some(j)
    else FirstVariant(points, id, j + 1)
  }

  /**
   * The reference of `getoptcases`: the first point of variant `refid` when
   * one is given (a missing one fails the `assert`), else the first point;
   * an empty `refid` counts as none.
   */
  function RefIndex(points: seq<Point>, refid: Option<string>): (r: Option<nat>)
    ensures r.Some? ==> r.value < |points|
  {
    if refid.Some? && refid.value != [] then FirstVariant(points, refid.value, 0)
    else if points == [] then None
    else Some(0)
  }

  /** The reference is the first point of the requested variant, or the first point. */
  lemma RefIndexSpec(points: seq<Point>, refid: Option<string>)
    ensures refid.Some? && refid.value != [] ==>
      (RefIndex(points, refid).None? <==> forall i :: 0 <= i < |points| ==> points[i].variant != refid.value)
    ensures refid.Some? && refid.value != [] && RefIndex(points, refid).Some? ==>
      points[RefIndex(points, refid).value].variant == refid.value &&
      forall i :: 0 <= i < RefIndex(points, refid).value ==> points[i].variant != refid.value
    ensures !(refid.Some? && refid.value != []) ==>
      RefIndex(points, refid) == if points == [] then None else Some(0)
  {
    if refid.Some? && refid.value != [] {
      var r := FirstVariant(points, refid.value, 0);
      if r.Some? {
        assert points[r.value].variant == refid.value;
      }
    }
  }

  // ------------------------------------------------------------------
  // scores

  /** `100 * (ref.time / time - 1)`: how much faster than the reference, in percent. */
  function Speedup(refTime: int, time: int): real
    requires time != 0
  {
    100.0 * ((refTime as real) / (time as real) - 1.0)
  }

  /** `100 * (1 - size / ref.size)`: how much smaller than the reference, in percent. */
  function SizeRed(refSize: int, size: int): real
    requires refSize != 0
  {
    100.0 * (1.0 - (size as real) / (refSize as real))
  }

  /** The reference point has no speedup and no size reduction. */
  lemma ReferenceScores(time: int, size: int)
    requires time != 0 && size != 0
    ensures Speedup(time, time) == 0.0 && SizeRed(size, size) == 0.0
  {
    var t, s := time as real, size as real;
    assert t / t == 1.0;
    assert s / s == 1.0;
  }

  /** A smaller size is a larger reduction, against a reference of positive size. */
  lemma SizeRedOrder(refSize: int, s1: int, s2: int)
    requires refSize > 0
    ensures s1 < s2 <==> SizeRed(refSize, s1) > SizeRed(refSize, s2)
  {
    var r := refSize as real;
    assert (s2 as real) / r - (s1 as real) / r == ((s2 - s1) as real) / r;
  }

  /** A shorter time is a larger speedup, for positive times. */
  lemma SpeedupOrder(refTime: int, t1: int, t2: int)
    requires refTime > 0 && t1 > 0 && t2 > 0
    ensures t1 < t2 <==> Speedup(refTime, t1) > Speedup(refTime, t2)
  {
    var r, a, b := refTime as real, t1 as real, t2 as real;
    assert r / a - r / b == r * (b - a) / (a * b);
    assert a * b > 0.0;
  }

  /** Every point can be scored: no time is zero, and the reference size is not zero. */
  predicate Scorable(points: seq<Point>, ref: Point) {
    ref.size != 0 && forall i :: 0 <= i < |points| ==> points[i].time != 0
  }

  /** The parsed points and the index of their reference, when both exist. */
  function Reference(lines: seq<string>, refid: Option<string>): (r: Option<(seq<Point>, nat)>)
    ensures r.Some? ==> r.value.1 < |r.value.0|
  {
    match ParseAll(lines)
    case None => None
    case Some(ps) =>
      match RefIndex(ps, refid)
      case None => None
      case Some(k) => Some((ps, k))
  }

  // ------------------------------------------------------------------
  // the two-dimensional frontier

  /** `c2` excludes `c1`: strictly more speedup and strictly more size reduction. */
  predicate Beats(sp: seq<real>, sr: seq<real>, a: nat, b: nat)
    requires |sp| == |sr|
  {
    a < |sp| && b < |sp| && sp[a] > sp[b] && sr[a] > sr[b]
  }

  /** Point `i` is on the frontier: no point beats it on both scores. */
  predicate OnFrontier(sp: seq<real>, sr: seq<real>, i: nat)
    requires |sp| == |sr| && i < |sp|
  {
    forall j :: 0 <= j < |sp| ==> !(sp[j] > sp[i] && sr[j] > sr[i])
  }

  lemma BeatsOrder(sp: seq<real>, sr: seq<real>)
    requires |sp| == |sr|
    ensures Frontier.StrictOrder(|sp|, (a: nat, b: nat) => Beats(sp, sr, a, b))
  {
  }

  /**
   * `compute_frontier` of the plot: a point is on the frontier exactly when
   * no other point has both a strictly larger speedup and a strictly larger
   * size reduction.
   */
  method ComputeFrontier(sp: seq<real>, sr: seq<real>) returns (on: seq<bool>)
    requires |sp| == |sr|
    ensures |on| == |sp|
    ensures forall i :: 0 <= i < |sp| ==> (on[i] <==> OnFrontier(sp, sr, i))
  {
    var dom := (a: nat, b: nat) => Beats(sp, sr, a, b);
    BeatsOrder(sp, sr);
    on := Frontier.ComputeFrontier(|sp|, dom);
    forall i | 0 <= i < |sp|
      ensures on[i] <==> OnFrontier(sp, sr, i)
    {
      forall j | 0 <= j < |sp| ensures dom(j, i) == (sp[j] > sp[i] && sr[j] > sr[i]) {
      }
    }
  }

  /** Points with the same two scores never exclude each other. */
  lemma SameScoresNeverExclude(sp: seq<real>, sr: seq<real>, a: nat, b: nat)
    requires |sp| == |sr| && a < |sp| && b < |sp| && sp[a] == sp[b] && sr[a] == sr[b]
    ensures !Beats(sp, sr, a, b) && !Beats(sp, sr, b, a)
  {
  }

  /**
   * The frontier does not depend on the order of the points: reordering the
   * points by a bijection `perm` reorders the frontier the same way.
   */
  lemma FrontierPermuted(sp: seq<real>, sr: seq<real>, perm: seq<nat>, k: nat)
    requires |sp| == |sr| && |perm| == |sp| && k < |sp|
    requires forall a :: 0 <= a < |perm| ==> perm[a] < |sp|
    requires forall b: nat :: b < |sp| ==> b in perm
    ensures var sp2 := seq(|sp|, i requires 0 <= i < |sp| => sp[perm[i]]);
      var sr2 := seq(|sr|, i requires 0 <= i < |sr| => sr[perm[i]]);
      OnFrontier(sp2, sr2, k) <==> OnFrontier(sp, sr, perm[k])
  {
    var n := |sp|;
    var sp2 := seq(|sp|, i requires 0 <= i < |sp| => sp[perm[i]]);
    var sr2 := seq(|sr|, i requires 0 <= i < |sr| => sr[perm[i]]);
    var dom := (a: nat, b: nat) => Beats(sp, sr, a, b);
    var dom2 := (a: nat, b: nat) => Beats(sp2, sr2, a, b);
    Frontier.UndominatedPermuted(n, dom, dom2, perm, k);
    assert Frontier.Undominated(n, dom2, k) <==> OnFrontier(sp2, sr2, k) by {
      forall j | 0 <= j < n ensures dom2(j, k) == (sp2[j] > sp2[k] && sr2[j] > sr2[k]) {
      }
    }
    assert Frontier.Undominated(n, dom, perm[k]) <==> OnFrontier(sp, sr, perm[k]) by {
      forall j | 0 <= j < n ensures dom(j, perm[k]) == (sp[j] > sp[perm[k]] && sr[j] > sr[perm[k]]) {
      }
    }
  }

  // ------------------------------------------------------------------
  // getoptcases

  /** The scores of every point against the reference; `None` on a division by zero. */
  method Scores(points: seq<Point>, ref: Point) returns (r: Option<(seq<real>, seq<real>)>)
    ensures r.None? <==> !Scorable(points, ref)
    ensures r.Some? ==> (|r.value.0| == |points| && |r.value.1| == |points| &&
      forall i :: 0 <= i < |points| ==>
        (r.value.0[i] == Speedup(ref.time, points[i].time) && r.value.1[i] == SizeRed(ref.size, points[i].size)))
  {
    var sp: seq<real> := [];
    var sr: seq<real> := [];
    var i := 0;
    while i < |points|
      invariant 0 <= i <= |points| && |sp| == i && |sr| == i
      invariant forall m :: 0 <= m < i ==> points[m].time != 0
      invariant i > 0 ==> ref.size != 0
      invariant forall m :: 0 <= m < i ==>
        sp[m] == Speedup(ref.time, points[m].time) && sr[m] == SizeRed(ref.size, points[m].size)
    {
      if points[i].time == 0 || ref.size == 0 {
        return None;
      }
      sp := sp + [Speedup(ref.time, points[i].time)];
      sr := sr + [SizeRed(ref.size, points[i].size)];
      i := i + 1;
    }
    if ref.size == 0 {
      return None;
    }
    return Some((sp, sr));
  }

  /**
   * `cases` holds every point in order, with its speedup and size reduction
   * against the point at `k`, and marked exactly when it is on the frontier.
   */
  predicate Scored(ps: seq<Point>, k: nat, cases: seq<Case>)
    requires k < |ps| && ps[k].size != 0 && forall i :: 0 <= i < |ps| ==> ps[i].time != 0
  {
    && |cases| == |ps|
    && (forall i :: 0 <= i < |ps| ==>
          && cases[i].point == ps[i]
          && cases[i].speedup == Speedup(ps[k].time, ps[i].time)
          && cases[i].sizered == SizeRed(ps[k].size, ps[i].size))
    && forall i :: 0 <= i < |ps| ==>
         (cases[i].onFrontier <==> forall j :: 0 <= j < |ps| ==>
            !(cases[j].speedup > cases[i].speedup && cases[j].sizered > cases[i].sizered))
  }

  /**
   * `getoptcases`: the points of the results file with their speedup and
   * size reduction against the reference and their place on the frontier;
   * `None` where the source raises (a line that does not parse, no
   * reference, a division by zero).
   */
  method GetOptCases(lines: seq<string>, refid: Option<string>) returns (r: Option<seq<Case>>)
    ensures r.None? <==> (Reference(lines, refid).None? ||
      !Scorable(Reference(lines, refid).value.0, Reference(lines, refid).value.0[Reference(lines, refid).value.1]))
    ensures r.Some? ==> Reference(lines, refid).Some? && Scored(Reference(lines, refid).value.0, Reference(lines, refid).value.1, r.value)
  {
    var parsed := ParsePoints(lines);
    if parsed.None? {
      return None;
    }
    var points := parsed.value;
    var k := RefIndex(points, refid);
    if k.None? {
      return None;
    }
    assert Reference(lines, refid) == Some((points, k.value));
    r := ScoreCases(points, k.value);
  }

  /** The cases of the parsed points against the reference at `k`. */
  method ScoreCases(points: seq<Point>, k: nat) returns (r: Option<seq<Case>>)
    requires k < |points|
    ensures r.None? <==> !Scorable(points, points[k])
    ensures r.Some? ==> Scorable(points, points[k]) && Scored(points, k, r.value)
  {
    var scores := Scores(points, points[k]);
    if scores.None? {
      return None;
    }
    var (sp, sr) := scores.value;
    var on := ComputeFrontier(sp, sr);
    var cases := seq(|points|, i requires 0 <= i < |points| => Case(points[i], sp[i], sr[i], on[i]));
    forall i | 0 <= i < |points|
      ensures cases[i].onFrontier <==>
        forall j :: 0 <= j < |points| ==> !(cases[j].speedup > cases[i].speedup && cases[j].sizered > cases[i].sizered)
    {
      assert on[i] <==> OnFrontier(sp, sr, i);
      assert forall j :: 0 <= j < |points| ==> cases[j].speedup == sp[j] && cases[j].sizered == sr[j];
    }
    return Some(cases);
  }

  // ------------------------------------------------------------------
  // select_tradeoff

  /** `perf_size_ratio * speedup + sizered`. */
  function Score(c: Case, ratio: real): real {
    ratio * c.speedup + c.sizered
  }

  /** `(score, variant)` of `a` sorts strictly before that of `b`. */
  predicate KeyLess(a: Case, b: Case, ratio: real) {
    Score(a, ratio) < Score(b, ratio) ||
    (Score(a, ratio) == Score(b, ratio) && Less(a.point.variant, b.point.variant))
  }

  lemma KeyLessIrreflexive(a: Case, ratio: real)
    ensures !KeyLess(a, a, ratio)
  {
    LessIrreflexive(a.point.variant);
  }

  lemma KeyLessAsymmetric(a: Case, b: Case, ratio: real)
    requires KeyLess(a, b, ratio)
    ensures !KeyLess(b, a, ratio)
  {
    if Less(a.point.variant, b.point.variant) && Less(b.point.variant, a.point.variant) {
      LessTransitive(a.point.variant, b.point.variant, a.point.variant);
      LessIrreflexive(a.point.variant);
    }
  }

  /** Not sorting before is transitive. */
  lemma NotKeyLessChain(a: Case, b: Case, c: Case, ratio: real)
    requires !KeyLess(a, b, ratio) && !KeyLess(b, c, ratio)
    ensures !KeyLess(a, c, ratio)
  {
    var x, y, z := a.point.variant, b.point.variant, c.point.variant;
    LessTotal(x, y);
    if KeyLess(a, c, ratio) && Less(x, z) && Less(y, x) {
      LessTransitive(y, x, z);
    }
  }

  /** The position of the last point of greatest `(score, variant)`. */
  function LastMax(cs: seq<Case>, ratio: real): (k: nat)
    requires cs != []
    ensures k < |cs|
  {
    if |cs| == 1 then 0
    else
      var k := LastMax(cs[..|cs| - 1], ratio);
      if KeyLess(cs[|cs| - 1], cs[k], ratio) then k else |cs| - 1
  }

  /**
   * The point chosen has the greatest `(score, variant)`, and every later
   * point sorts strictly before it: it is the last element of the sorted list.
   */
  lemma {:induction false} LastMaxSpec(cs: seq<Case>, ratio: real)
    requires cs != []
    ensures forall j :: 0 <= j < |cs| ==> !KeyLess(cs[LastMax(cs, ratio)], cs[j], ratio)
    ensures forall j :: LastMax(cs, ratio) < j < |cs| ==> KeyLess(cs[j], cs[LastMax(cs, ratio)], ratio)
  {
    var n := |cs|;
    var k := LastMax(cs, ratio);
    if n == 1 {
      KeyLessIrreflexive(cs[0], ratio);
    } else {
      var init := cs[..n - 1];
      LastMaxSpec(init, ratio);
      var k' := LastMax(init, ratio);
      assert forall j :: 0 <= j < n - 1 ==> init[j] == cs[j];
      var last := cs[n - 1];
      if KeyLess(last, cs[k'], ratio) {
        KeyLessAsymmetric(last, cs[k'], ratio);
      } else {
        forall j | 0 <= j < n ensures !KeyLess(last, cs[j], ratio) {
          if j < n - 1 {
            assert init[j] == cs[j];
            NotKeyLessChain(last, cs[k'], cs[j], ratio);
          } else {
            KeyLessIrreflexive(last, ratio);
          }
        }
      }
    }
  }

  /** `select_tradeoff`: `None` for an empty frontier, else the last point of the sorted list. */
  function SelectTradeoff(frontier: seq<Case>, ratio: real): Option<Case> {
    if frontier == [] then None else Some(frontier[LastMax(frontier, ratio)])
  }

  /**
   * The tradeoff maximises `ratio * speedup + sizered` over the frontier,
   * and among the points of that score it has the greatest variant.
   */
  lemma SelectTradeoffSpec(frontier: seq<Case>, ratio: real)
    ensures SelectTradeoff(frontier, ratio).None? <==> frontier == []
    ensures SelectTradeoff(frontier, ratio).Some? ==>
      var t := SelectTradeoff(frontier, ratio).value;
      t in frontier &&
      (forall j :: 0 <= j < |frontier| ==> Score(frontier[j], ratio) <= Score(t, ratio)) &&
      forall j :: 0 <= j < |frontier| && Score(frontier[j], ratio) == Score(t, ratio) ==>
        !Less(t.point.variant, frontier[j].point.variant)
  {
    if frontier != [] {
      LastMaxSpec(frontier, ratio);
    }
  }

  // ------------------------------------------------------------------
  // point_str

  /** The flags shown in a point's label: cut to 25 characters and `...` when short and 28 or longer. */
  function LabelFlags(flags: string, short: bool): (r: string)
    ensures !short || |flags| < 28 ==> r == flags
    ensures short && |flags| >= 28 ==> |r| == 28 && r[..25] == flags[..25] && r[25..] == "..."
  {
    if |flags| < 28 || !short then flags else flags[..25] + "..."
  }

  /** A short label never shows more than 28 characters of flags. */
  lemma ShortLabelBound(flags: string)
    ensures |LabelFlags(flags, true)| <= 28
  {
  }

  // ------------------------------------------------------------------
  // optgraph: highlight definitions and the partition of the points

  /**
   * A `--highlight` option: `regexp,legend`, or a bare `regexp` without a
   * legend; `None` where unpacking raises (more than one comma).
   */
  function Highlight(def: string): (r: Option<(string, string)>)
    ensures r.None? <==> ',' in def && |Split(def, ',')| != 2
    ensures r.Some? && ',' in def ==> r.value.0 + "," + r.value.1 == def
    ensures ',' !in def ==> r == Some((def, "_nolegend_"))
  {
    if ',' in def then
      var ws := Split(def, ',');
      JoinSplit(def, ',');
      if |ws| == 2 then
        assert ws == [ws[0], ws[1]];
        assert Join(ws, ",") == ws[0] + "," + Join(ws[1..], ",");
        Some((ws[0], ws[1]))
      else None
    else Some((def, "_nolegend_"))
  }

  /** Every highlight definition unpacked, or `None` when one of them raises. */
  function Highlights(defs: seq<string>): (r: Option<seq<(string, string)>>)
    ensures r.Some? <==> forall i :: 0 <= i < |defs| ==> Highlight(defs[i]).Some?
    ensures r.Some? ==> |r.value| == |defs| && forall i :: 0 <= i < |defs| ==> Some(r.value[i]) == Highlight(defs[i])
  {
    if forall i :: 0 <= i < |defs| ==> Highlight(defs[i]).Some? then
      Some(seq(|defs|, i requires 0 <= i < |defs| => Highlight(defs[i]).value))
    else None
  }

  /**
   * The patterns in order: the regexp part of each unpacked highlight
   * definition, then the catch-all.
   */
  function Patterns(highlights: seq<(string, string)>): (r: seq<string>)
    ensures |r| == |highlights| + 1 && r[|highlights|] == ".*"
    ensures forall i :: 0 <= i < |highlights| ==> r[i] == highlights[i].0
  {
    seq(|highlights|, i requires 0 <= i < |highlights| => highlights[i].0) + [".*"]
  }

  /**
   * The first pattern from position `k` on that matches the point's variant
   * or flags; `matches(pattern, text)` stands for `re.match`.
   */
  function FirstMatch(patterns: seq<string>, matches: (string, string) -> bool, p: Point, k: nat): (r: Option<nat>)
    requires k <= |patterns|
    ensures r.Some? ==> (k <= r.value < |patterns| &&
      (matches(patterns[r.value], p.variant) || matches(patterns[r.value], p.flags)) &&
      forall i :: k <= i < r.value ==> !matches(patterns[i], p.variant) && !matches(patterns[i], p.flags))
    ensures r.None? ==> forall i :: k <= i < |patterns| ==> !matches(patterns[i], p.variant) && !matches(patterns[i], p.flags)
    decreases |patterns| - k
  {
    if k == |patterns| then None
    else if matches(patterns[k], p.variant) || matches(patterns[k], p.flags) then Some(k)
    else FirstMatch(patterns, matches, p, k + 1)
  }

  /** The pattern of the group a point goes to, if any pattern matches it. */
  function GroupOf(patterns: seq<string>, matches: (string, string) -> bool, p: Point): Option<string> {
    match FirstMatch(patterns, matches, p, 0)
    case None => None
    case Some(k) => Some(patterns[k])
  }

  /** The positions of the points whose first matching pattern is `pat`, in order. */
  function Members(points: seq<Point>, patterns: seq<string>, matches: (string, string) -> bool, pat: string): (r: seq<nat>)
    ensures forall i: nat :: i in r <==> i < |points| && GroupOf(patterns, matches, points[i]) == Some(pat)
    ensures forall a :: 0 <= a < |r| ==> r[a] < |points|
    ensures forall a, b :: 0 <= a < b < |r| ==> r[a] < r[b]
  {
    if points == [] then []
    else
      var init := points[..|points| - 1];
      assert forall i :: 0 <= i < |init| ==> init[i] == points[i];
      var m := Members(init, patterns, matches, pat);
      var n := |points| - 1;
      m + (if GroupOf(patterns, matches, points[n]) == Some(pat) then [n] else [])
  }

  /** Taking one more point in adds it to the end of its own group only. */
  lemma MembersSnoc(points: seq<Point>, patterns: seq<string>, matches: (string, string) -> bool, i: nat, pat: string)
    requires i < |points|
    ensures Members(points[..i + 1], patterns, matches, pat) ==
      Members(points[..i], patterns, matches, pat) + (if GroupOf(patterns, matches, points[i]) == Some(pat) then [i] else [])
  {
    var prefix := points[..i + 1];
    assert prefix[..i] == points[..i];
    assert prefix[i] == points[i];
  }

  /** The groups with point `i` appended to group `g`, if it has one. */
  function Place(groups: map<string, seq<nat>>, g: Option<string>, i: nat): map<string, seq<nat>> {
    if g.None? then groups
    else groups[g.value := (if g.value in groups then groups[g.value] else []) + [i]]
  }

  /** The groups after placing the points one by one, in order. */
  function Grouping(points: seq<Point>, patterns: seq<string>, matches: (string, string) -> bool): map<string, seq<nat>> {
    if points == [] then map[]
    else
      var n := |points| - 1;
      Place(Grouping(points[..n], patterns, matches), GroupOf(patterns, matches, points[n]), n)
  }

  /** The groups are keyed by the patterns with members, and list exactly those members. */
  lemma {:induction false} GroupingSpec(points: seq<Point>, patterns: seq<string>, matches: (string, string) -> bool)
    ensures forall pat :: pat in Grouping(points, patterns, matches) <==> Members(points, patterns, matches, pat) != []
    ensures forall pat :: pat in Grouping(points, patterns, matches) ==>
      Grouping(points, patterns, matches)[pat] == Members(points, patterns, matches, pat)
  {
    if points != [] {
      var n := |points| - 1;
      GroupingSpec(points[..n], patterns, matches);
      assert points[..n + 1] == points;
      forall pat {
        MembersSnoc(points, patterns, matches, n, pat);
      }
    }
  }

  /**
   * The partition loop of `optgraph`: each point goes to the group of the
   * first pattern matching its variant or flags, groups keyed by pattern
   * and listing their points in order.
   */
  method Partition(points: seq<Point>, patterns: seq<string>, matches: (string, string) -> bool)
    returns (groups: map<string, seq<nat>>)
    ensures groups == Grouping(points, patterns, matches)
    ensures forall pat :: pat in groups <==> Members(points, patterns, matches, pat) != []
    ensures forall pat :: pat in groups ==> groups[pat] == Members(points, patterns, matches, pat)
  {
    groups := map[];
    var i := 0;
    while i < |points|
      invariant 0 <= i <= |points| && groups == Grouping(points[..i], patterns, matches)
    {
      assert points[..i + 1][..i] == points[..i];
      var g := GroupOf(patterns, matches, points[i]);
      if g.Some? {
        var pat := g.value;
        var members := if pat in groups then groups[pat] else [];
        groups := groups[pat := members + [i]];
      }
      i := i + 1;
    }
    assert points[..i] == points;
    GroupingSpec(points, patterns, matches);
  }

  /**
   * With the catch-all `.*` matching every text, every point lands in
   * exactly one group.
   */
  lemma EveryPointPlaced(points: seq<Point>, highlights: seq<(string, string)>, matches: (string, string) -> bool, i: nat)
    requires forall t :: matches(".*", t)
    requires i < |points|
    ensures FirstMatch(Patterns(highlights), matches, points[i], 0).Some?
    ensures var pat := Patterns(highlights)[FirstMatch(Patterns(highlights), matches, points[i], 0).value];
      i in Members(points, Patterns(highlights), matches, pat) &&
      forall other :: other != pat ==> i !in Members(points, Patterns(highlights), matches, other)
  {
    var ps := Patterns(highlights);
    assert ps[|ps| - 1] == ".*";
    assert matches(ps[|ps| - 1], points[i].variant);
  }
}
