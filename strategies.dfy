/**
 * The decision rules of the exploration strategies (`exploration.gen_*`)
 * and of the exploration loop, over results that are given rather than
 * produced by running the compiler: the cartesian enumeration of
 * `gen_all_combinations`, the best-value choice and the token commit of
 * `gen_tune`, the flag classification of `gen_one_by_one`, the base-flag
 * list of `loop_base` and the per-base iteration cap of `loop`.
 */
module Strategies {
  import opened Wrappers
  import opened Text
  import opened FlagSpecs
  import opened CommandLine
  import opened Combinations
  import Merge

  // ------------------------------------------------------------------
  // gen_all_combinations: itertools.product over the flags' values

  /** The value list of every flag, `values()` with its default of three samples. */
  function Domains(fs: seq<FlagSpec>): (r: seq<seq<string>>)
    ensures |r| == |fs|
    ensures forall i :: 0 <= i < |fs| ==> r[i] == FlagValues(fs[i], 3)
  {
    if fs == [] then [] else [FlagValues(fs[0], 3)] + Domains(fs[1..])
  }

  /** `gen_all_combinations`: the candidates, in the order they are yielded. */
  function AllCombinations(fs: seq<FlagSpec>): seq<seq<string>> {
    Product(Domains(fs))
  }

  /** One candidate per choice of a value for every flag, and nothing else. */
  lemma AllCombinationsSpec(fs: seq<FlagSpec>, c: seq<string>)
    ensures |AllCombinations(fs)| == Size(Domains(fs))
    ensures c in AllCombinations(fs) <==> |c| == |fs| && forall i :: 0 <= i < |c| ==> c[i] in FlagValues(fs[i], 3)
  {
    ProductLength(Domains(fs));
    ProductMember(Domains(fs), c);
  }

  // ------------------------------------------------------------------
  // gen_tune: which value of a flag is kept

  /** One run of `gen_tune`: its last metric, the value tried and the run id. */
  datatype Trial = Trial(metric: Option<int>, value: string, runId: string)

  /**
   * The runs `gen_tune` compares: a truthy metric in the current copy (a
   * missing or zero metric is dropped), a positive one in the legacy copy.
   */
  predicate Eligible(v: Merge.Version, m: Option<int>) {
    match m
    case None => false
    case Some(x) => if v == Merge.Current then x != 0 else x > 0
  }

  /** `(metric, len(value), run_id)` of `a` sorts strictly before that of `b`. */
  predicate Before(a: Trial, b: Trial)
    requires a.metric.Some? && b.metric.Some?
  {
    var x, y := a.metric.value, b.metric.value;
    x < y || (x == y && (|a.value| < |b.value| || (|a.value| == |b.value| && Less(a.runId, b.runId))))
  }

  /** Sorting before is a strict weak order: whatever `b` is, it sorts after `a` or before `c`. */
  lemma BeforeSplit(a: Trial, b: Trial, c: Trial)
    requires a.metric.Some? && b.metric.Some? && c.metric.Some?
    requires Before(a, c)
    ensures Before(a, b) || Before(b, c)
  {
    LessTotal(a.runId, b.runId);
    if Less(b.runId, a.runId) && Less(a.runId, c.runId) {
      LessTransitive(b.runId, a.runId, c.runId);
    }
  }

  /** Not sorting before is transitive. */
  lemma NotBeforeChain(a: Trial, b: Trial, c: Trial)
    requires a.metric.Some? && b.metric.Some? && c.metric.Some?
    requires !Before(a, b) && !Before(b, c)
    ensures !Before(a, c)
  {
    if Before(a, c) {
      BeforeSplit(a, b, c);
    }
  }

  /** Two runs never sort before each other. */
  lemma BeforeAsymmetric(a: Trial, b: Trial)
    requires a.metric.Some? && b.metric.Some? && Before(a, b)
    ensures !Before(b, a)
  {
    if Less(a.runId, b.runId) && Less(b.runId, a.runId) {
      LessTransitive(a.runId, b.runId, a.runId);
      LessIrreflexive(a.runId);
    }
  }

  /** Runs with different ids are ordered one way or the other. */
  lemma BeforeTotal(a: Trial, b: Trial)
    requires a.metric.Some? && b.metric.Some? && a.runId != b.runId
    ensures Before(a, b) || Before(b, a)
  {
    LessTotal(a.runId, b.runId);
  }

  /** `sorted(flag_results)[0]` over the eligible runs; `None` when there is none. */
  function Best(v: Merge.Version, trials: seq<Trial>): (r: Option<Trial>)
    ensures r.Some? ==> r.value in trials && Eligible(v, r.value.metric)
  {
    if trials == [] then None
    else
      var rest := Best(v, trials[1..]);
      if !Eligible(v, trials[0].metric) then rest
      else if rest.None? || !Before(rest.value, trials[0]) then Some(trials[0])
      else rest
  }

  /**
   * `gen_tune` fails (the index into an empty sorted list) exactly when no
   * run is eligible; otherwise no eligible run sorts before the chosen one.
   */
  lemma {:induction false} BestSpec(v: Merge.Version, trials: seq<Trial>)
    ensures Best(v, trials).None? <==> forall i :: 0 <= i < |trials| ==> !Eligible(v, trials[i].metric)
    ensures Best(v, trials).Some? ==> forall i :: 0 <= i < |trials| && Eligible(v, trials[i].metric) ==>
      !Before(trials[i], Best(v, trials).value)
  {
    if trials != [] {
      BestSpec(v, trials[1..]);
      var rest := Best(v, trials[1..]);
      var t0 := trials[0];
      assert forall i :: 1 <= i < |trials| ==> trials[i] == trials[1..][i - 1];
      if Eligible(v, t0.metric) {
        LessIrreflexive(t0.runId);
        if rest.Some? {
          if !Before(rest.value, t0) {
            forall i | 1 <= i < |trials| && Eligible(v, trials[i].metric)
              ensures !Before(trials[i], t0)
            {
              assert trials[1..][i - 1] == trials[i];
              NotBeforeChain(trials[i], rest.value, t0);
            }
          } else {
            BeforeAsymmetric(rest.value, t0);
          }
        }
      }
    }
  }

  /**
   * Run ids are dictionary keys, so they differ; then the chosen run sorts
   * strictly before every other eligible run.
   */
  lemma BestUnique(v: Merge.Version, trials: seq<Trial>)
    requires forall i, j :: 0 <= i < j < |trials| ==> trials[i].runId != trials[j].runId
    ensures Best(v, trials).Some? ==> forall i :: 0 <= i < |trials| && Eligible(v, trials[i].metric) && trials[i] != Best(v, trials).value ==>
      Before(Best(v, trials).value, trials[i])
  {
    BestSpec(v, trials);
    if Best(v, trials).Some? {
      var b := Best(v, trials).value;
      forall i | 0 <= i < |trials| && Eligible(v, trials[i].metric) && trials[i] != b
        ensures Before(b, trials[i])
      {
        var k :| 0 <= k < |trials| && trials[k] == b;
        assert i != k;
        BeforeTotal(b, trials[i]);
      }
    }
  }

  /** The values tried for a token owned by flag `f`: dropping it, then ten samples. */
  function Candidates(f: FlagSpec): seq<string> {
    [""] + FlagValues(f, 10)
  }

  /**
   * The runs of token `t`: candidate `c` ran with the metric and the run id
   * `outcome(t, c)` reports.
   */
  function Trials(f: FlagSpec, t: nat, outcome: (nat, nat) -> (Option<int>, string)): seq<Trial> {
    var cs := Candidates(f);
    seq(|cs|, c requires 0 <= c < |cs| => Trial(outcome(t, c).0, cs[c], outcome(t, c).1))
  }

  /** `gen_tune` as written: every occurrence of the token text is replaced in the flag string. */
  function CommitAsWritten(flags: string, token: string, value: string): string {
    Strip(ReplaceAll(flags, token, value))
  }

  /** `str.replace` at an occurrence of the pattern. */
  lemma ReplaceAllHere(pat: string, t: string, rep: string)
    requires pat != []
    ensures ReplaceAll(pat + t, pat, rep) == rep + ReplaceAll(t, pat, rep)
  {
    assert pat <= pat + t;
    assert (pat + t)[|pat|..] == t;
  }

  /** `str.replace` past a character that cannot start the pattern. */
  lemma ReplaceAllSkip(c: char, t: string, pat: string, rep: string)
    requires pat != [] && c != pat[0]
    ensures ReplaceAll([c] + t, pat, rep) == [c] + ReplaceAll(t, pat, rep)
  {
    assert ([c] + t)[0] == c;
    assert ([c] + t)[1..] == t;
  }

  /** `str.replace` leaves a text alone when the pattern's first character is not in it. */
  lemma {:induction false} ReplaceAllAbsent(t: string, pat: string, rep: string)
    requires pat != [] && pat[0] !in t
    ensures ReplaceAll(t, pat, rep) == t
  {
    if t != [] {
      assert t == [t[0]] + t[1..];
      ReplaceAllSkip(t[0], t[1..], pat, rep);
      ReplaceAllAbsent(t[1..], pat, rep);
    }
  }

  /**
   * Replacing a token by nothing with `str.replace` also eats the same text
   * where it starts a longer token `pat + d`.
   */
  lemma ReplaceClobbers(pat: string, d: string)
    requires pat != [] && pat[0] != ' ' && pat[0] !in d
    ensures ReplaceAll(pat + " " + pat + d, pat, "") == " " + d
  {
    var w := pat + d;
    var u := [' '] + w;
    ReplaceAllAbsent(d, pat, "");
    ReplaceAllHere(pat, d, "");
    assert ReplaceAll(w, pat, "") == d;
    ReplaceAllSkip(' ', w, pat, "");
    assert ReplaceAll(u, pat, "") == [' '] + d;
    ReplaceAllHere(pat, u, "");
    SpacedPair(pat, d);
  }

  lemma SpacedPair(pat: string, d: string)
    ensures pat + " " + pat + d == pat + ([' '] + (pat + d))
  {
    Assoc(pat, [' '], pat);
    Assoc(pat, [' '] + pat, d);
    Assoc([' '], pat, d);
  }

  /** `strip` drops a leading blank. */
  lemma StripLeading(c: char, s: string)
    requires IsSpace(c)
    ensures Strip([c] + s) == Strip(s)
  {
    assert ([c] + s)[1..] == s;
  }

  /** `strip` of a blank and a text with no blank at either end is that text. */
  lemma StripBlankLead(d: string)
    requires d != [] && !IsSpace(d[0]) && !IsSpace(d[|d| - 1])
    ensures Strip(" " + d) == d
  {
    assert " " + d == [' '] + d;
    StripLeading(' ', d);
    StripNoop(d);
  }

  /** Dropping `-g` from `-g -gdwarf` as written also rewrites `-gdwarf` into `dwarf`. */
  lemma CommitAsWrittenClobbers()
    ensures CommitAsWritten("-g -gdwarf", "-g", "") == "dwarf"
  {
    var pat, d := "-g", "dwarf";
    assert "-g -gdwarf" == pat + " " + pat + d;
    assert pat[0] !in d;
    ReplaceClobbers(pat, d);
    StripBlankLead(d);
  }

  /** The committed value replaces the token at position `t` and nothing else. */
  function Commit(words: seq<string>, t: nat, value: string): (r: seq<string>)
    requires t < |words|
    ensures |r| == |words| && r[t] == value
    ensures forall i :: 0 <= i < |words| && i != t ==> r[i] == words[i]
  {
    words[..t] + [value] + words[t + 1..]
  }

  /** The configuration text of a token list: the non-empty tokens joined with spaces. */
  function Config(words: seq<string>): string {
    Join(NonEmpty(words), " ")
  }

  /** Dropping `-g` from `-g -gdwarf` at its own position leaves `-gdwarf` alone. */
  lemma CommitKeepsNeighbours()
    ensures Config(Commit(["-g", "-gdwarf"], 0, "")) == "-gdwarf"
  {
    var r := Commit(["-g", "-gdwarf"], 0, "");
    assert r == ["", "-gdwarf"];
    assert r[1..] == ["-gdwarf"] && r[1..][1..] == [];
    assert NonEmpty(r) == ["-gdwarf"];
  }

  /** The inputs of one `gen_tune` run: one fitting draw vector per token for `find`. */
  predicate TuneInputs(fs: seq<FlagSpec>, tokens: seq<string>, draws: seq<seq<nat>>) {
    |draws| == |tokens| && forall t :: 0 <= t < |tokens| ==> Merge.DrawsFit(fs, draws[t])
  }

  /**
   * What tuning makes of token `t`: the token itself when no flag owns it,
   * the value of the best run when one does, `None` when `find` raises or
   * no run of the token is eligible.
   */
  function Tuned(v: Merge.Version, fs: seq<FlagSpec>, tokens: seq<string>, draws: seq<seq<nat>>,
                 outcome: (nat, nat) -> (Option<int>, string), t: nat): Option<string>
    requires TuneInputs(fs, tokens, draws) && t < |tokens|
  {
    match Merge.Find(v, fs, tokens[t], draws[t])
    case Raises => None
    case NoOwner => Some(tokens[t])
    case Owner(j) =>
      match Best(v, Trials(fs[j], t, outcome))
      case None => None
      case Some(b) => Some(b.value)
  }

  /** A tuned token is kept, or is one of its flag's candidates and the best eligible run. */
  lemma TunedSpec(v: Merge.Version, fs: seq<FlagSpec>, tokens: seq<string>, draws: seq<seq<nat>>,
                  outcome: (nat, nat) -> (Option<int>, string), t: nat)
    requires TuneInputs(fs, tokens, draws) && t < |tokens|
    ensures Merge.Find(v, fs, tokens[t], draws[t]) == Merge.NoOwner ==> Tuned(v, fs, tokens, draws, outcome, t) == Some(tokens[t])
    ensures Merge.Find(v, fs, tokens[t], draws[t]) == Merge.Raises ==> Tuned(v, fs, tokens, draws, outcome, t).None?
    ensures Merge.Find(v, fs, tokens[t], draws[t]).Owner? && Tuned(v, fs, tokens, draws, outcome, t).Some? ==>
      var j := Merge.Find(v, fs, tokens[t], draws[t]).index;
      j < |fs| && Tuned(v, fs, tokens, draws, outcome, t).value in Candidates(fs[j]) &&
      exists c :: 0 <= c < |Candidates(fs[j])| && Candidates(fs[j])[c] == Tuned(v, fs, tokens, draws, outcome, t).value &&
        Eligible(v, outcome(t, c).0)
  {
    Merge.FindSpec(v, fs, tokens[t], draws[t]);
    var lk := Merge.Find(v, fs, tokens[t], draws[t]);
    if lk.Owner? {
      var ts := Trials(fs[lk.index], t, outcome);
      var b := Best(v, ts);
      if b.Some? {
        var c :| 0 <= c < |ts| && ts[c] == b.value;
        assert Candidates(fs[lk.index])[c] == b.value.value;
      }
    }
  }

  /**
   * The loop of `exploration.gen_tune` over the tokens of the base
   * configuration: each token owned by a flag is replaced by the value of
   * its best run, token by token; `None` when a step raises.  The value is
   * committed at the token's own position (`Commit`), the corrected form of
   * the source's `str.replace` on the whole configuration text.
   */
  method TuneTokens(v: Merge.Version, fs: seq<FlagSpec>, tokens: seq<string>, draws: seq<seq<nat>>,
                    outcome: (nat, nat) -> (Option<int>, string)) returns (r: Option<seq<string>>)
    requires TuneInputs(fs, tokens, draws)
    ensures r.None? <==> exists t :: 0 <= t < |tokens| && Tuned(v, fs, tokens, draws, outcome, t).None?
    ensures r.Some? ==> |r.value| == |tokens| && forall t :: 0 <= t < |tokens| ==>
      Tuned(v, fs, tokens, draws, outcome, t) == Some(r.value[t])
  {
    var words := tokens;
    var t := 0;
    while t < |tokens|
      invariant 0 <= t <= |tokens| && |words| == |tokens|
      invariant forall i :: 0 <= i < t ==> Tuned(v, fs, tokens, draws, outcome, i) == Some(words[i])
      invariant forall i :: t <= i < |tokens| ==> words[i] == tokens[i]
    {
      var tuned := Tuned(v, fs, tokens, draws, outcome, t);
      if tuned.None? {
        return None;
      }
      words := Commit(words, t, tuned.value);
      t := t + 1;
    }
    r := Some(words);
  }

  /**
   * `exploration.gen_tune`, with the outcome of every run given, as a token
   * list committed position by position (`Commit`) rather than as the
   * source's text rewritten by `str.replace(...).strip()`.
   */
  method Tune(v: Merge.Version, fs: seq<FlagSpec>, base: string, draws: seq<seq<nat>>,
              outcome: (nat, nat) -> (Option<int>, string)) returns (r: Option<seq<string>>)
    requires TuneInputs(fs, Fuse(Words(base)), draws)
    ensures r.None? <==> exists t :: 0 <= t < |Fuse(Words(base))| && Tuned(v, fs, Fuse(Words(base)), draws, outcome, t).None?
    ensures r.Some? ==> |r.value| == |Fuse(Words(base))| && forall t :: 0 <= t < |r.value| ==>
      Tuned(v, fs, Fuse(Words(base)), draws, outcome, t) == Some(r.value[t])
  {
    var tokens := ParseLine(base);
    r := TuneTokens(v, fs, tokens, draws, outcome);
  }

  // ------------------------------------------------------------------
  // gen_one_by_one: how a flag is classified

  /** `# SAME`, `# FAIL`, or kept. */
  datatype Verdict = Same | Fail | Keep

  /** `len(set(row))`. */
  function DistinctCount(row: seq<Option<int>>): nat {
    |set x | x in row|
  }

  /**
   * The verdict on one flag from its rows of last metrics (one row per base
   * configuration: the base run, then one run per value): a failed run
   * anywhere fails it, every row constant makes it useless, otherwise it is kept.
   */
  function Classify(rows: seq<seq<Option<int>>>): Verdict {
    if exists i, j :: 0 <= i < |rows| && 0 <= j < |rows[i]| && rows[i][j].None? then Fail
    else if (set i | 0 <= i < |rows| :: DistinctCount(rows[i])) == {1} then Same
    else Keep
  }

  /** A row holds exactly one distinct value when it is non-empty and constant. */
  lemma DistinctOne(row: seq<Option<int>>)
    ensures DistinctCount(row) == 1 <==> row != [] && forall j :: 0 <= j < |row| ==> row[j] == row[0]
  {
    var s := set x | x in row;
    if row != [] && forall j :: 0 <= j < |row| ==> row[j] == row[0] {
      assert s == {row[0]};
    }
    if |s| == 1 {
      var e :| e in s;
      assert |s - {e}| == 0;
      assert s == {e};
      assert row[0] in s;
      forall j | 0 <= j < |row| ensures row[j] == row[0] {
        assert row[j] in s;
      }
    }
  }

  /**
   * A flag is `SAME` exactly when no run failed, there is at least one row,
   * and every row is non-empty with one value throughout.
   */
  lemma ClassifySame(rows: seq<seq<Option<int>>>)
    ensures Classify(rows) == Same <==>
      (forall i, j :: 0 <= i < |rows| && 0 <= j < |rows[i]| ==> rows[i][j].Some?) &&
      rows != [] &&
      forall i :: 0 <= i < |rows| ==> rows[i] != [] && forall j :: 0 <= j < |rows[i]| ==> rows[i][j] == rows[i][0]
  {
    var counts := set i | 0 <= i < |rows| :: DistinctCount(rows[i]);
    forall i | 0 <= i < |rows| {
      DistinctOne(rows[i]);
    }
    if rows != [] && forall i :: 0 <= i < |rows| ==> DistinctCount(rows[i]) == 1 {
      assert DistinctCount(rows[0]) in counts;
      assert counts == {1};
    }
    if counts == {1} {
      forall i | 0 <= i < |rows| ensures DistinctCount(rows[i]) == 1 {
        assert DistinctCount(rows[i]) in counts;
      }
      assert 1 in counts;
    }
  }

  /** The positions of `vs` holding `w`, in increasing order. */
  function Where(vs: seq<Verdict>, w: Verdict): (r: seq<nat>)
    ensures forall k: nat :: k in r <==> k < |vs| && vs[k] == w
    ensures forall a, b :: 0 <= a < b < |r| ==> r[a] < r[b]
  {
    if vs == [] then []
    else
      var p := vs[..|vs| - 1];
      assert forall k :: 0 <= k < |p| ==> p[k] == vs[k];
      var q := Where(p, w);
      assert forall a :: 0 <= a < |q| ==> q[a] in q;
      q + (if vs[|vs| - 1] == w then [|vs| - 1] else [])
  }

  /** The verdict on every flag. */
  function Verdicts(flagRows: seq<seq<seq<Option<int>>>>): (r: seq<Verdict>)
    ensures |r| == |flagRows|
    ensures forall k :: 0 <= k < |flagRows| ==> r[k] == Classify(flagRows[k])
  {
    seq(|flagRows|, k requires 0 <= k < |flagRows| => Classify(flagRows[k]))
  }

  /**
   * The classification loop of `gen_one_by_one`: the flags (by position)
   * found always the same, sometimes failing, and worth keeping, each list
   * in flag order; every flag lands in exactly one of them.
   */
  method ClassifyFlags(flagRows: seq<seq<seq<Option<int>>>>) returns (same: seq<nat>, fail: seq<nat>, keep: seq<nat>)
    ensures same == Where(Verdicts(flagRows), Same)
    ensures fail == Where(Verdicts(flagRows), Fail)
    ensures keep == Where(Verdicts(flagRows), Keep)
  {
    same, fail, keep := Partition(Verdicts(flagRows));
  }

  /** The loop that appends each flag to the list of its verdict. */
  method Partition(vs: seq<Verdict>) returns (same: seq<nat>, fail: seq<nat>, keep: seq<nat>)
    ensures same == Where(vs, Same) && fail == Where(vs, Fail) && keep == Where(vs, Keep)
  {
    same, fail, keep := [], [], [];
    var k := 0;
    while k < |vs|
      invariant 0 <= k <= |vs|
      invariant same == Where(vs[..k], Same) && fail == Where(vs[..k], Fail) && keep == Where(vs[..k], Keep)
    {
      WhereSnoc(vs, k, Same);
      WhereSnoc(vs, k, Fail);
      WhereSnoc(vs, k, Keep);
      if vs[k] == Fail {
        fail := fail + [k];
      } else if vs[k] == Same {
        same := same + [k];
      } else {
        keep := keep + [k];
      }
      k := k + 1;
    }
    assert vs[..k] == vs;
  }

  /** One more verdict adds its position to the list of its kind only. */
  lemma WhereSnoc(vs: seq<Verdict>, k: nat, w: Verdict)
    requires k < |vs|
    ensures Where(vs[..k + 1], w) == Where(vs[..k], w) + (if vs[k] == w then [k] else [])
  {
    var s := vs[..k + 1];
    assert s[..|s| - 1] == vs[..k];
    assert s[|s| - 1] == vs[k];
  }

  /** The three lists partition the flags. */
  lemma ClassifyPartition(flagRows: seq<seq<seq<Option<int>>>>, k: nat)
    requires k < |flagRows|
    ensures k in Where(Verdicts(flagRows), Same) || k in Where(Verdicts(flagRows), Fail) || k in Where(Verdicts(flagRows), Keep)
    ensures !(k in Where(Verdicts(flagRows), Same) && k in Where(Verdicts(flagRows), Fail))
    ensures !(k in Where(Verdicts(flagRows), Same) && k in Where(Verdicts(flagRows), Keep))
    ensures !(k in Where(Verdicts(flagRows), Fail) && k in Where(Verdicts(flagRows), Keep))
  {
  }

  // ------------------------------------------------------------------
  // gen_one_by_one of the legacy copy: BAD, ERROR and GOOD runs

  /** `FLAG-BAD`: slower than the reference run. */
  predicate LegacyBad(r: int, ref: int) {
    r > ref
  }

  /** `FLAG-ERROR`: the run failed. */
  predicate LegacyError(r: int) {
    r == -1
  }

  /** `FLAG-GOOD`: a valid result faster than the reference run. */
  predicate LegacyGood(r: int, ref: int) {
    0 < r < ref
  }

  /**
   * GOOD excludes BAD and ERROR; ERROR and BAD overlap only under a
   * reference below -1; a run as fast as a working reference is in no list.
   */
  lemma LegacyCategories(r: int, ref: int)
    ensures !(LegacyGood(r, ref) && LegacyBad(r, ref))
    ensures !(LegacyGood(r, ref) && LegacyError(r))
    ensures (LegacyError(r) && LegacyBad(r, ref)) <==> r == -1 && ref < -1
    ensures r == ref ==> !LegacyGood(r, ref) && !LegacyBad(r, ref) && (LegacyError(r) <==> ref == -1)
  {
  }

  // ------------------------------------------------------------------
  // loop_base and loop

  /**
   * One entry of the base-flag list: the non-empty lines of the file of that
   * name, or else the entry split at its commas.  `files` stands for the
   * file system.
   */
  function Expand(entry: string, files: map<string, seq<string>>): (r: seq<string>)
    ensures entry !in files ==> Join(r, ",") == entry
    ensures entry in files ==> forall i :: 0 <= i < |r| ==> r[i] != [] && r[i] in files[entry]
    ensures entry in files ==> forall w :: w in r <==> w in files[entry] && w != []
    ensures entry in files ==> forall w :: w != [] ==> multiset(r)[w] == multiset(files[entry])[w]
  {
    if entry in files then
      var r := NonEmpty(files[entry]);
      assert forall i :: 0 <= i < |r| ==> r[i] in r;
      r
    else
      JoinSplit(entry, ',');
      Split(entry, ',')
  }

  /** The base configurations of all the entries, in order. */
  function ExpandAll(entries: seq<string>, files: map<string, seq<string>>): seq<string> {
    if entries == [] then []
    else ExpandAll(entries[..|entries| - 1], files) + Expand(entries[|entries| - 1], files)
  }

  /** `exploration.loop_base`: the base configurations the exploration runs over. */
  method LoopBase(entries: seq<string>, files: map<string, seq<string>>) returns (bases: seq<string>)
    ensures bases == ExpandAll(entries, files)
  {
    bases := [];
    var i := 0;
    while i < |entries|
      invariant 0 <= i <= |entries|
      invariant bases == ExpandAll(entries[..i], files)
    {
      assert entries[..i + 1][..i] == entries[..i];
      bases := bases + Expand(entries[i], files);
      i := i + 1;
    }
    assert entries[..i] == entries;
  }

  /**
   * The configurations run for one base: all those the strategy yields,
   * or the first `maxiter` of them when `maxiter` is a positive bound.
   */
  function Capped(configs: seq<string>, maxiter: Option<int>): (r: seq<string>)
    ensures r <= configs
    ensures |r| == if maxiter.Some? && 1 <= maxiter.value < |configs| then maxiter.value else |configs|
  {
    if maxiter.Some? && 1 <= maxiter.value < |configs| then configs[..maxiter.value] else configs
  }

  /** The runs started for base `b`: each configuration with its base. */
  function Paired(b: string, configs: seq<string>): (r: seq<(string, string)>)
    ensures |r| == |configs|
    ensures forall i :: 0 <= i < |configs| ==> r[i] == (b, configs[i])
  {
    seq(|configs|, i requires 0 <= i < |configs| => (b, configs[i]))
  }

  /** The runs of every base in turn. */
  function Dispatched(bases: seq<string>, strategy: string -> seq<string>, maxiter: Option<int>): seq<(string, string)> {
    if bases == [] then []
    else Dispatched(bases[..|bases| - 1], strategy, maxiter) + Paired(bases[|bases| - 1], Capped(strategy(bases[|bases| - 1]), maxiter))
  }

  /**
   * One base of `exploration.loop`: the configurations the strategy yields
   * are started one by one, and the base is left once `maxiter` of them
   * have started.
   */
  method RunBase(b: string, configs: seq<string>, maxiter: Option<int>) returns (runs: seq<(string, string)>)
    ensures runs == Paired(b, Capped(configs, maxiter))
  {
    runs := [];
    var n := 0;
    while n < |configs|
      invariant 0 <= n <= |configs|
      invariant maxiter.Some? && 1 <= maxiter.value ==> n < maxiter.value
      invariant runs == Paired(b, configs[..n])
    {
      assert configs[..n + 1] == configs[..n] + [configs[n]];
      runs := runs + [(b, configs[n])];
      n := n + 1;
      if maxiter == Some(n) {
        break;
      }
    }
    assert configs[..n] == Capped(configs, maxiter);
  }

  /**
   * `exploration.loop`: every base in turn, with the configurations the
   * strategy yields for it (`strategy(b)`).
   */
  method Loop(bases: seq<string>, strategy: string -> seq<string>, maxiter: Option<int>) returns (runs: seq<(string, string)>)
    ensures runs == Dispatched(bases, strategy, maxiter)
  {
    runs := [];
    var i := 0;
    while i < |bases|
      invariant 0 <= i <= |bases|
      invariant runs == Dispatched(bases[..i], strategy, maxiter)
    {
      assert bases[..i + 1][..i] == bases[..i];
      var baseRuns := RunBase(bases[i], strategy(bases[i]), maxiter);
      runs := runs + baseRuns;
      i := i + 1;
    }
    assert bases[..i] == bases;
  }

  /** A positive `maxiter` bounds the runs of every base; any other value bounds nothing. */
  lemma CappedSpec(configs: seq<string>, maxiter: Option<int>)
    ensures maxiter.Some? && maxiter.value >= 1 ==> |Capped(configs, maxiter)| <= maxiter.value
    ensures !(maxiter.Some? && maxiter.value >= 1) ==> Capped(configs, maxiter) == configs
  {
  }
}
