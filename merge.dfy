/**
 * Looking a command-line token up in the flag list (`opt_flag_list.find`)
 * and merging a configuration with the base flags (`exploration.flags`):
 * tokens that belong to the same flag, or that are spelt the same, keep only
 * their last occurrence, in command-line order.
 *
 * Each call to `rand` made by a lookup is replaced by a drawn index, one per
 * flag of the list and per token.
 */
module Merge {
  import opened Wrappers
  import opened Text
  import opened FlagSpecs
  import opened CommandLine

  /** The two copies of the tool differ in how `find` compares a choice flag. */
  datatype Version = Current | Legacy

  /** What a lookup yields: the position of the owning flag, no owner, or an exception. */
  datatype Lookup = Owner(index: nat) | NoOwner | Raises

  /** An index drawn by `random.randint` or `random.choice` fits the flag. */
  predicate DrawFits(f: FlagSpec, k: nat) {
    match f
    case Range(_, lo, hi, step) => RandBound(lo, hi, step).None? || k <= RandBound(lo, hi, step).value
    case Choice(cs) => cs == [] || k < |cs|
  }

  /** One draw per flag of the list, each fitting its flag. */
  predicate DrawsFit(fs: seq<FlagSpec>, ks: seq<nat>) {
    |ks| == |fs| && forall j :: 0 <= j < |fs| ==> DrawFits(fs[j], ks[j])
  }

  /**
   * The bound `rand` hands to `random.randint(0, _)` in each copy: the
   * legacy copy divides with Python 2's floor division, the current copy
   * with Python 3's true division, whose quotient `randint` refuses unless
   * it is integral.
   */
  function DrawBound(v: Version, lo: int, hi: int, step: int): (r: Option<nat>)
    ensures r.Some? ==> r == RandBound(lo, hi, step)
    ensures v == Legacy ==> r == RandBound(lo, hi, step)
    ensures v == Current ==> (r.Some? <==> RandBound(lo, hi, step).Some? && step != 0 && (hi - lo) % step == 0)
  {
    if v == Current then
      var q := RandBoundAsWritten(lo, hi, step);
      if q.Some? then RandBoundAsWrittenAgrees(lo, hi, step); q else q
    else RandBound(lo, hi, step)
  }

  /**
   * Whether flag `f` owns `token`: `None` when the test raises (`randint`
   * refusing its bound, which the current copy's true division makes happen
   * whenever the step does not divide the width; `random.choice` of nothing;
   * or an empty choice list failing the final `assert` of the current copy).
   */
  function Owns(v: Version, f: FlagSpec, token: string, k: nat): (r: Option<bool>)
    requires DrawFits(f, k)
    ensures r.None? <==> (f.Range? && DrawBound(v, f.lo, f.hi, f.step).None?) || (f.Choice? && f.choices == [])
    ensures v == Current && f.Choice? && r.Some? ==> (r.value <==> token in f.choices)
  {
    match f
    case Range(_, lo, hi, step) =>
      if DrawBound(v, lo, hi, step).None? then None
      else Some(FlagName(Rand(f, k)) == FlagName(token))
    case Choice(cs) =>
      if cs == [] then None
      else if v == Current then Some(token in cs)
      else Some(FlagName(Rand(f, k)) == FlagName(token))
  }

  /**
   * On a range such as `-finline-limit=[0..10,3]`, whose step does not divide
   * its width, the current copy's lookup raises for every token, where the
   * legacy copy draws a value and matches `-finline-limit=5` by its key.
   */
  lemma OwnsAsWrittenRaises(p: string, lo: int, hi: int, step: int, x: string, k: nat)
    requires '=' in p && step > 0 && lo <= hi && (hi - lo) % step != 0
    requires ValidDraw(Range(p, lo, hi, step), k)
    ensures Owns(Current, Range(p, lo, hi, step), p + x, k) == None
    ensures Owns(Legacy, Range(p, lo, hi, step), p + x, k) == Some(true)
  {
    RangeKeyIgnoresDraw(p, lo, hi, step, k);
    CutAtEqualsSuffix(p, x);
  }

  /** The loop of `find` from position `j` on. */
  function FindFrom(v: Version, fs: seq<FlagSpec>, token: string, ks: seq<nat>, j: nat): (r: Lookup)
    requires DrawsFit(fs, ks) && j <= |fs|
    ensures r.Owner? ==> j <= r.index < |fs|
    decreases |fs| - j
  {
    if j == |fs| then NoOwner
    else
      match Owns(v, fs[j], token, ks[j])
      case None => Raises
      case Some(true) => Owner(j)
      case Some(false) => FindFrom(v, fs, token, ks, j + 1)
  }

  /** `opt_flag_list.find`: the first flag of the list that owns the token. */
  function Find(v: Version, fs: seq<FlagSpec>, token: string, ks: seq<nat>): Lookup
    requires DrawsFit(fs, ks)
  {
    FindFrom(v, fs, token, ks, 0)
  }

  /** Every flag before position `j` answered "no" without raising. */
  predicate NoneBefore(v: Version, fs: seq<FlagSpec>, token: string, ks: seq<nat>, j: nat)
    requires DrawsFit(fs, ks) && j <= |fs|
  {
    forall i :: 0 <= i < j ==> Owns(v, fs[i], token, ks[i]) == Some(false)
  }

  lemma {:induction false} FindFromSpec(v: Version, fs: seq<FlagSpec>, token: string, ks: seq<nat>, j: nat)
    requires DrawsFit(fs, ks) && j <= |fs| && NoneBefore(v, fs, token, ks, j)
    ensures forall i :: j <= i < |fs| ==>
      (FindFrom(v, fs, token, ks, j) == Owner(i) <==> Owns(v, fs[i], token, ks[i]) == Some(true) && NoneBefore(v, fs, token, ks, i))
    ensures FindFrom(v, fs, token, ks, j) == NoOwner <==> NoneBefore(v, fs, token, ks, |fs|)
    ensures FindFrom(v, fs, token, ks, j) == Raises <==>
      exists i :: j <= i < |fs| && Owns(v, fs[i], token, ks[i]).None? && NoneBefore(v, fs, token, ks, i)
    decreases |fs| - j
  {
    if j < |fs| {
      var o := Owns(v, fs[j], token, ks[j]);
      if o == Some(false) {
        assert NoneBefore(v, fs, token, ks, j + 1);
        FindFromSpec(v, fs, token, ks, j + 1);
      } else {
        forall i | j < i <= |fs|
          ensures !NoneBefore(v, fs, token, ks, i)
        {
          assert Owns(v, fs[j], token, ks[j]) != Some(false);
        }
      }
    }
  }

  /**
   * `find` answers the first flag that owns the token, provided every
   * earlier flag answered without raising; it answers `None` when no flag
   * owns it, and raises when a flag raises before any owner is met.
   */
  lemma FindSpec(v: Version, fs: seq<FlagSpec>, token: string, ks: seq<nat>)
    requires DrawsFit(fs, ks)
    ensures forall i :: 0 <= i < |fs| ==>
      (Find(v, fs, token, ks) == Owner(i) <==> Owns(v, fs[i], token, ks[i]) == Some(true) && NoneBefore(v, fs, token, ks, i))
    ensures Find(v, fs, token, ks) == NoOwner <==> NoneBefore(v, fs, token, ks, |fs|)
    ensures Find(v, fs, token, ks) == Raises <==>
      exists i :: 0 <= i < |fs| && Owns(v, fs[i], token, ks[i]).None? && NoneBefore(v, fs, token, ks, i)
  {
    FindFromSpec(v, fs, token, ks, 0);
  }

  /** Cutting a token after its first `=` ignores whatever follows a prefix that already holds one. */
  lemma CutAtEqualsSuffix(p: string, x: string)
    requires '=' in p
    ensures CutAtEquals(p + x) == CutAtEquals(p)
  {
    var i := FlagSpecs.Find(p, '=');
    var t := p + x;
    assert t[..i] == p[..i];
    assert t[i] == '=';
    assert FlagSpecs.Find(t, '=') == i;
    assert t[..i + 1] == p[..i + 1];
  }

  /**
   * For a range whose prefix holds `=` (`-finline-limit=`), the drawn value
   * never matters: every draw has the key of the prefix itself.
   */
  lemma RangeKeyIgnoresDraw(p: string, lo: int, hi: int, step: int, k: nat)
    requires '=' in p
    requires ValidDraw(Range(p, lo, hi, step), k)
    ensures FlagName(Rand(Range(p, lo, hi, step), k)) == FlagName(p)
  {
    CutAtEqualsSuffix(p, IntToString(RangeDraw(lo, step, k)));
  }

  /** The legacy copy matches a choice by key, so `-O3` is owned by the choice list `-O1`. */
  lemma LegacyChoiceByKey()
    ensures Owns(Legacy, Choice(["-O1"]), "-O3", 0) == Some(true)
    ensures Owns(Current, Choice(["-O1"]), "-O3", 0) == Some(false)
  {
    FlagNameOptLevel("-O1");
    FlagNameOptLevel("-O3");
    assert "-O3" != "-O1";
  }

  // ------------------------------------------------------------------
  // keeping the last occurrence of each flag

  /** The dictionary key of a token: its owning flag, or the token itself. */
  datatype Key = Owned(flag: nat) | Literal(token: string)

  /** The key a lookup gives a token. */
  function KeyOf(lookup: Lookup, token: string): Key {
    match lookup
    case Owner(j) => Owned(j)
    case _ => Literal(token)
  }

  /** The keys of all tokens, `None` as soon as a lookup raises. */
  function Keys(v: Version, fs: seq<FlagSpec>, tokens: seq<string>, draws: seq<seq<nat>>): (r: Option<seq<Key>>)
    requires |draws| == |tokens| && forall t :: 0 <= t < |tokens| ==> DrawsFit(fs, draws[t])
    ensures r.Some? ==> |r.value| == |tokens|
    ensures r.Some? <==> forall t :: 0 <= t < |tokens| ==> Find(v, fs, tokens[t], draws[t]) != Raises
  {
    if forall t :: 0 <= t < |tokens| ==> Find(v, fs, tokens[t], draws[t]) != Raises then
      Some(seq(|tokens|, t requires 0 <= t < |tokens| => KeyOf(Find(v, fs, tokens[t], draws[t]), tokens[t])))
    else None
  }

  /** The key of each token is its owner, or itself when it has none. */
  lemma KeysSpec(v: Version, fs: seq<FlagSpec>, tokens: seq<string>, draws: seq<seq<nat>>, t: nat)
    requires |draws| == |tokens| && forall t :: 0 <= t < |tokens| ==> DrawsFit(fs, draws[t])
    requires Keys(v, fs, tokens, draws).Some? && t < |tokens|
    ensures var key := Keys(v, fs, tokens, draws).value[t];
      match Find(v, fs, tokens[t], draws[t])
      case Owner(j) => key == Owned(j)
      case NoOwner => key == Literal(tokens[t])
      case Raises => false
  {
  }

  /**
   * `dict(pairs)`: each key mapped to the position of its last occurrence
   * (later pairs overwrite earlier ones).
   */
  function LastPositions(keys: seq<Key>): (m: map<Key, nat>)
    ensures LastOccurrences(keys, m)
  {
    if keys == [] then map[]
    else
      var init := keys[..|keys| - 1];
      var last := keys[|keys| - 1];
      LastOccurrencesSnoc(init, last, LastPositions(init));
      assert keys == init + [last];
      LastPositions(init)[last := |init|]
  }

  /** `m` maps each key of `keys` to its last position, and holds nothing else. */
  ghost predicate LastOccurrences(keys: seq<Key>, m: map<Key, nat>) {
    && (forall k :: k in m <==> k in keys)
    && (forall k :: k in m ==> m[k] < |keys| && keys[m[k]] == k)
    && (forall k, j :: k in m && m[k] < j < |keys| ==> keys[j] != k)
  }

  lemma LastOccurrencesSnoc(init: seq<Key>, last: Key, m: map<Key, nat>)
    requires LastOccurrences(init, m)
    ensures LastOccurrences(init + [last], m[last := |init|])
  {
    var keys, m' := init + [last], m[last := |init|];
    forall k ensures k in m' <==> k in keys {
      if k in init {
        var i :| 0 <= i < |init| && init[i] == k;
        assert keys[i] == k;
      }
      if k in keys && k != last {
        var i :| 0 <= i < |keys| && keys[i] == k;
        assert init[i] == k;
      }
    }
    forall k | k in m' ensures m'[k] < |keys| && keys[m'[k]] == k {
      if k != last {
        assert keys[m[k]] == init[m[k]];
      }
    }
  }

  /** The positions in `[i, n)` that belong to `s`, in increasing order: `sorted(...)`. */
  function SortedFrom(s: set<nat>, i: nat, n: nat): (r: seq<nat>)
    ensures forall x :: x in r <==> i <= x < n && x in s
    ensures forall a :: 0 <= a < |r| ==> i <= r[a] < n
    ensures forall a, b :: 0 <= a < b < |r| ==> r[a] < r[b]
    decreases n - i
  {
    if i >= n then []
    else (if i in s then [i] else []) + SortedFrom(s, i + 1, n)
  }

  /** The positions whose token survives the merge, in command-line order. */
  function KeptPositions(keys: seq<Key>): (ps: seq<nat>)
    ensures forall a :: 0 <= a < |ps| ==> ps[a] < |keys|
  {
    SortedFrom(LastPositions(keys).Values, 0, |keys|)
  }

  /** A position survives exactly when no later token has the same key. */
  lemma KeptIff(keys: seq<Key>, i: nat)
    ensures i in KeptPositions(keys) <==>
      i < |keys| && forall j :: i < j < |keys| ==> keys[j] != keys[i]
  {
    var m := LastPositions(keys);
    if i < |keys| && forall j :: i < j < |keys| ==> keys[j] != keys[i] {
      var k := keys[i];
      assert k in m;
      assert m[k] == i;
      assert i in m.Values;
    }
  }

  /**
   * The merge keeps, in command-line order, the last token of each key and
   * nothing else: surviving positions increase, carry pairwise different
   * keys, and are exactly the last occurrences.
   */
  lemma KeptPositionsSpec(keys: seq<Key>)
    ensures var ps := KeptPositions(keys);
      && (forall a, b :: 0 <= a < b < |ps| ==> ps[a] < ps[b] && keys[ps[a]] != keys[ps[b]])
      && (forall i: nat :: i in ps <==> i < |keys| && forall j :: i < j < |keys| ==> keys[j] != keys[i])
  {
    KeptDistinct(keys);
    forall i: nat ensures i in KeptPositions(keys) <==> i < |keys| && forall j :: i < j < |keys| ==> keys[j] != keys[i]
    {
      KeptIff(keys, i);
    }
  }

  /** Surviving tokens have pairwise different keys. */
  lemma KeptDistinct(keys: seq<Key>)
    ensures var ps := KeptPositions(keys);
      forall a, b :: 0 <= a < b < |ps| ==> keys[ps[a]] != keys[ps[b]]
  {
    var ps := KeptPositions(keys);
    forall a, b | 0 <= a < b < |ps|
      ensures keys[ps[a]] != keys[ps[b]]
    {
      KeptIff(keys, ps[a]);
      assert ps[a] < ps[b] < |keys|;
    }
  }

  /** Every key of the input is carried by one surviving token: its last one. */
  lemma KeptCovers(keys: seq<Key>, i: nat)
    requires i < |keys|
    ensures exists j :: j in KeptPositions(keys) && i <= j && keys[j] == keys[i]
  {
    var m := LastPositions(keys);
    var j := m[keys[i]];
    KeptIff(keys, j);
  }

  /** The tokens at the given positions. */
  function Pick(tokens: seq<string>, ps: seq<nat>): (r: seq<string>)
    requires forall a :: 0 <= a < |ps| ==> ps[a] < |tokens|
    ensures |r| == |ps| && forall a :: 0 <= a < |ps| ==> r[a] == tokens[ps[a]]
  {
    if ps == [] then [] else [tokens[ps[0]]] + Pick(tokens, ps[1..])
  }

  /** The tokens of the merged command line: `parse_line` of the base flags and the given ones. */
  function Tokens(base: string, flags: seq<string>): seq<string> {
    Fuse(Words(Join([base] + flags, " ")))
  }

  /**
   * `exploration.flags`: the base flags and the given flags joined with
   * spaces, split into tokens by `parse_line`, and merged; `None` exactly
   * when one lookup raises.
   */
  function Flags(v: Version, fs: seq<FlagSpec>, base: string, flags: seq<string>, draws: seq<seq<nat>>): (r: Option<string>)
    requires |draws| == |Tokens(base, flags)|
    requires forall t :: 0 <= t < |draws| ==> DrawsFit(fs, draws[t])
    ensures r.Some? <==>
      forall t :: 0 <= t < |draws| ==> Find(v, fs, Tokens(base, flags)[t], draws[t]) != Raises
  {
    var tokens := Tokens(base, flags);
    match Keys(v, fs, tokens, draws)
    case None => None
    case Some(keys) => Some(Join(Pick(tokens, KeptPositions(keys)), " "))
  }
}
