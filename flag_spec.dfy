/**
 * One exploration flag, `opt_flag_list.opt_flag`: either a numeric range
 * `PREFIX[min..max(,step)]` or a list of alternative spellings.  Covers the
 * token canonicalisation `flag_name`, the random pick `rand` (the drawn index
 * is a parameter), the sample list `values` and the descriptor form `str`.
 */
module FlagSpecs {
  import opened Wrappers
  import opened Text

  datatype FlagSpec =
    | Range(prefix: string, lo: int, hi: int, step: int)
    | Choice(choices: seq<string>)

  // ------------------------------------------------------------------
  // flag_name

  /** `s.find(c)`: the first index of `c`, or -1. */
  function Find(s: string, c: char): (r: int)
    ensures -1 <= r < |s|
    ensures r == -1 <==> c !in s
    ensures r >= 0 ==> s[r] == c && c !in s[..r]
  {
    if s == [] then -1
    else if s[0] == c then 0
    else
      var k := Find(s[1..], c);
      assert s == [s[0]] + s[1..];
      if k < 0 then -1
      else
        assert s[..k + 1] == [s[0]] + s[1..][..k];
        k + 1
  }

  /** The first occurrence of `c` is where `find` stops. */
  lemma FindAt(s: string, c: char, i: int)
    requires 0 <= i < |s| && s[i] == c && c !in s[..i]
    ensures Find(s, c) == i
  {
    var r := Find(s, c);
    assert s[i] in s;
    forall j | 0 <= j < i ensures s[j] != c {
      assert s[..i][j] == s[j];
    }
    forall j | 0 <= j < r ensures s[j] != c {
      assert s[..r][j] == s[j];
    }
  }

  /** No `=` except, possibly, as the last character. */
  predicate EqualsOnlyAtEnd(t: string) {
    forall i :: 0 <= i < |t| && t[i] == '=' ==> i == |t| - 1
  }

  /** The token cut just after its first `=`, when it has one. */
  function CutAtEquals(s: string): (r: string)
    ensures r <= s && EqualsOnlyAtEnd(r)
  {
    var i := Find(s, '=');
    if i != -1 then s[..i + 1] else s
  }

  /** `s.replace('no-', '', 1)` on a token known to start with `-fno-`. */
  function DropNegation(s: string): string {
    if "-fno-" <= s then ReplaceFirst(s, "no-", "") else s
  }

  /** `opt_flag.flag_name`: a coarse key for a flag token. */
  function FlagName(s: string): string {
    var s2 := DropNegation(CutAtEquals(s));
    if "-O" <= s2 then "-O" else s2
  }

  lemma CutAtEqualsNoop(t: string)
    requires EqualsOnlyAtEnd(t)
    ensures CutAtEquals(t) == t
  {
    var i := Find(t, '=');
    if i != -1 {
      assert t[..i + 1] == t;
    }
  }

  lemma NegatedSpelling(x: string)
    ensures "-fno-" + x == ['-'] + (['f'] + ("no-" + x))
    ensures "-f" + x == ['-'] + (['f'] + x)
    ensures "-fno-" <= "-fno-" + x
  {
  }

  lemma ReplaceNegation(x: string)
    ensures ReplaceFirst(['-'] + (['f'] + ("no-" + x)), "no-", "") == ['-'] + (['f'] + x)
  {
    ReplaceAfterTwo('-', 'f', "no-", x, "");
    assert "" + x == x;
  }

  lemma ReplaceAfterTwo(a: char, b: char, pat: string, x: string, rep: string)
    requires |pat| > 0 && pat[0] != a && pat[0] != b
    ensures ReplaceFirst([a] + ([b] + (pat + x)), pat, rep) == [a] + ([b] + (rep + x))
  {
    ReplaceFirstHere(pat, x, rep);
    ReplaceFirstSkip(b, pat + x, pat, rep);
    ReplaceFirstSkip(a, [b] + (pat + x), pat, rep);
  }

  /** `"-fno-" + x` with its first `no-` removed is `"-f" + x`. */
  lemma DropNegationShape(x: string)
    ensures DropNegation("-fno-" + x) == "-f" + x
  {
    NegatedSpelling(x);
    ReplaceNegation(x);
  }

  lemma PrefixAfterCommon(p: string, q: string, x: string)
    ensures (p + q <= p + x) <==> (q <= x)
  {
    if q <= x {
      assert (p + x)[..|p + q|] == p + x[..|q|];
    }
    if p + q <= p + x {
      assert x[..|q|] == (p + x)[..|p + q|][|p|..];
    }
  }

  /** `-f` + x reads as a negation exactly when x starts with `no-`. */
  lemma NegationPrefixes(x: string)
    ensures ("-fno-" <= "-f" + x) <==> ("no-" <= x)
    ensures ("-fno-no-" <= "-fno-" + x) <==> ("no-" <= x)
  {
    assert "-fno-" == "-f" + "no-";
    assert "-fno-no-" == "-fno-" + "no-";
    PrefixAfterCommon("-f", "no-", x);
    PrefixAfterCommon("-fno-", "no-", x);
  }

  lemma DropNegationOther(s: string)
    requires !("-fno-" <= s)
    ensures DropNegation(s) == s
  {
  }

  /**
   * A token without `=` is its own key exactly when it is not a negation and
   * either is not an `-O` level or is `-O` itself.
   */
  lemma FlagNameFixedPoint(s: string)
    requires '=' !in s
    ensures FlagName(s) == s <==> !("-fno-" <= s) && (!("-O" <= s) || s == "-O")
  {
    assert Find(s, '=') == -1;
    if "-fno-" <= s {
      var x := s[5..];
      assert s == "-fno-" + x;
      DropNegationShape(x);
      var t := "-f" + x;
      assert t[1] == 'f' && !("-O" <= t);
      assert |t| < |s|;
    } else {
      DropNegationOther(s);
    }
  }

  lemma CutAtEqualsPrefix(p: string, x: string)
    requires '=' !in p
    ensures CutAtEquals(p + x) == p + CutAtEquals(x)
  {
    var s := p + x;
    var j := Find(x, '=');
    if j == -1 {
      assert '=' !in s;
    } else {
      var before := x[..j];
      assert s[|p| + j] == '=';
      assert s[..|p| + j] == p + before;
      FindAt(s, '=', |p| + j);
      assert s[..|p| + j + 1] == p + x[..j + 1];
    }
  }

  /** A key holds at most one `=`, and only as its last character. */
  lemma FlagNameEquals(s: string)
    ensures EqualsOnlyAtEnd(FlagName(s))
  {
    DropNegationEquals(CutAtEquals(s));
  }

  lemma DropNegationEquals(s: string)
    requires EqualsOnlyAtEnd(s)
    ensures EqualsOnlyAtEnd(DropNegation(s))
  {
    if "-fno-" <= s {
      var x := s[5..];
      assert s == "-fno-" + x;
      DropNegationShape(x);
      NegationEquals(x);
    }
  }

  lemma NegationEquals(x: string)
    requires EqualsOnlyAtEnd("-fno-" + x)
    ensures EqualsOnlyAtEnd("-f" + x)
  {
    var s, t := "-fno-" + x, "-f" + x;
    assert t[0] == '-' && t[1] == 'f';
    forall i | 0 <= i < |t| && t[i] == '='
      ensures i == |t| - 1
    {
      if i >= 2 {
        assert s[i + 3] == t[i];
      }
    }
  }

  /** Every `-O` token (`-O2`, `-Os`, `-O`) has the key `-O`. */
  lemma FlagNameOptLevel(s: string)
    requires "-O" <= s
    ensures FlagName(s) == "-O"
  {
    var s1 := CutAtEquals(s);
    assert s[0] == '-' && s[1] == 'O';
    if Find(s, '=') != -1 {
      assert Find(s, '=') >= 2;
    }
    assert |s1| >= 2 && s1[0] == '-' && s1[1] == 'O';
    assert !("-fno-" <= s1);
    assert "-O" <= s1;
  }

  /** `-fno-X` has the key of `-fX`: the negation is folded away. */
  lemma FlagNameNegation(x: string)
    ensures FlagName("-fno-" + x) == "-f" + CutAtEquals(x)
  {
    CutAtEqualsPrefix("-fno-", x);
    DropNegationShape(CutAtEquals(x));
    var t := "-f" + CutAtEquals(x);
    assert t[1] == 'f';
    assert !("-O" <= t);
  }

  /** Canonicalising a key again changes nothing, except on `-fno-no-` tokens. */
  lemma FlagNameIdempotent(s: string)
    requires !("-fno-no-" <= s)
    ensures FlagName(FlagName(s)) == FlagName(s)
  {
    var s1 := CutAtEquals(s);
    var s2 := DropNegation(s1);
    var r := FlagName(s);
    if r == "-O" {
      FlagNameOptLevel(r);
    } else {
      assert r == s2 && !("-O" <= r);
      FlagNameEquals(s);
      CutAtEqualsNoop(r);
      if "-fno-" <= s1 {
        var x := s1[5..];
        assert s1 == "-fno-" + x;
        DropNegationShape(x);
        assert r == "-f" + x;
        NegationPrefixes(x);
        assert "-fno-no-" <= s1 ==> "-fno-no-" <= s;
      }
      DropNegationOther(r);
    }
  }

  lemma DoubleNegationSpelling(y: string, c: string)
    ensures "-fno-no-" + y == "-fno-" + ("no-" + y)
    ensures "-f" + ("no-" + c) == "-fno-" + c
    ensures ("-fno-" + c)[5..] == c
    ensures "-fno-" <= "-fno-" + c
  {
  }

  /** On a `-fno-no-` token a second canonicalisation strips one more `no-`. */
  lemma FlagNameDoubleNegation(y: string)
    ensures "-fno-" <= FlagName("-fno-no-" + y)
    ensures FlagName(FlagName("-fno-no-" + y)) == "-f" + FlagName("-fno-no-" + y)[5..]
  {
    var c := CutAtEquals(y);
    DoubleNegationSpelling(y, c);
    FlagNameNegation("no-" + y);
    CutAtEqualsPrefix("no-", y);
    FlagNameNegation(c);
    CutAtEqualsNoop(c);
  }

  // ------------------------------------------------------------------
  // rand

  /** Python's `//` on integers (rounds toward negative infinity). */
  function FloorDiv(a: int, b: int): int
    requires b != 0
  {
    if b > 0 then a / b else (-a) / (-b)
  }

  /**
   * The upper bound handed to `random.randint(0, _)` by `rand` on a range,
   * with the floor division of the Python 2 copy; `None` when the call raises
   * (a zero step, or an empty draw interval).
   */
  function RandBound(lo: int, hi: int, step: int): Option<nat> {
    if step == 0 then None
    else
      var q := FloorDiv(hi - lo, step);
      if q < 0 then None else Some(q)
  }

  /**
   * The same bound with the true division `/` of the Python 3 tool, as
   * `randint` of Python 3.7 to 3.11 treats it: a quotient that is not
   * integral is refused.
   */
  function RandBoundAsWritten(lo: int, hi: int, step: int): Option<nat> {
    if step == 0 || (hi - lo) % step != 0 then None
    else
      var q := (hi - lo) / step;
      if q < 0 then None else Some(q)
  }

  /** A positive step covers the interval: draw `k` lies in `[lo, hi]` exactly when `k` is at most the bound. */
  lemma {:induction false} RandBoundCovers(lo: int, hi: int, step: int, k: nat)
    requires step > 0 && lo <= hi
    ensures RandBound(lo, hi, step).Some?
    ensures lo + k * step <= hi <==> k <= RandBound(lo, hi, step).value
  {
    var q := (hi - lo) / step;
    assert hi - lo == q * step + (hi - lo) % step;
    assert (q + 1) * step == q * step + step;
    if k <= q {
      MulMonotone(k, q, step);
    } else {
      MulMonotone(q + 1, k, step);
    }
  }

  /** The tool as written refuses a range whose width is not a multiple of the step. */
  lemma RandBoundAsWrittenRefuses()
    ensures RandBoundAsWritten(0, 10, 3) == None
    ensures RandBound(0, 10, 3) == Some(3)
  {
  }

  /** Where both bounds exist they agree. */
  lemma RandBoundAsWrittenAgrees(lo: int, hi: int, step: int)
    requires RandBoundAsWritten(lo, hi, step).Some?
    ensures RandBound(lo, hi, step) == RandBoundAsWritten(lo, hi, step)
  {
    var d := hi - lo;
    if step < 0 {
      var q := d / step;
      assert d == step * q;
      assert -d == q * (-step) + 0;
      DivUnique(-d, -step, q, 0);
    }
  }

  /** A draw `random.randint` or `random.choice` can return for this flag. */
  predicate ValidDraw(f: FlagSpec, k: nat) {
    match f
    case Range(_, lo, hi, step) => RandBound(lo, hi, step).Some? && k <= RandBound(lo, hi, step).value
    case Choice(cs) => k < |cs|
  }

  /** The value `min + k * step` of a range draw. */
  function RangeDraw(lo: int, step: int, k: nat): int {
    lo + k * step
  }

  /** `opt_flag.rand()` with the random index `k` given. */
  function Rand(f: FlagSpec, k: nat): string
    requires ValidDraw(f, k)
  {
    match f
    case Range(p, lo, hi, step) => p + IntToString(RangeDraw(lo, step, k))
    case Choice(cs) => cs[k]
  }

  /** A range draw stays between the two bounds, whatever the step's sign. */
  lemma {:induction false} RangeDrawBounds(lo: int, hi: int, step: int, k: nat)
    requires RandBound(lo, hi, step).Some? && k <= RandBound(lo, hi, step).value
    ensures var v := RangeDraw(lo, step, k);
      (lo <= hi ==> lo <= v <= hi) && (hi <= lo ==> hi <= v <= lo)
  {
    var q := RandBound(lo, hi, step).value;
    if step > 0 {
      assert q * step <= hi - lo;
      assert 0 <= k * step <= q * step;
    } else {
      assert q == (lo - hi) / (-step);
      assert q * (-step) <= lo - hi;
      assert 0 <= k * (-step) <= q * (-step);
    }
  }

  // ------------------------------------------------------------------
  // values

  /** Python's `int()` of a real: rounds toward zero. */
  function TruncDiv(n: int, d: int): int
    requires d > 0
  {
    if n >= 0 then n / d else -((-n) / d)
  }

  lemma MulMonotone(x: int, y: int, d: int)
    requires d >= 0 && x <= y
    ensures x * d <= y * d
  {
    assert y * d - x * d == (y - x) * d;
  }

  /** Quotient and remainder are determined by `a == q * d + r` with `0 <= r < d`. */
  lemma DivUnique(a: int, d: int, q: int, r: int)
    requires d > 0 && a == q * d + r && 0 <= r < d
    ensures a / d == q
  {
    var q' := a / d;
    var r' := a % d;
    assert a == q' * d + r';
    assert (q - q') * d == r' - r;
    if q - q' >= 1 {
      MulMonotone(1, q - q', d);
    } else if q - q' <= -1 {
      MulMonotone(q - q', -1, d);
    }
  }

  lemma TruncDivAboveFloor(n: int, d: int)
    requires d > 0
    ensures n / d <= TruncDiv(n, d)
  {
    if n < 0 {
      var q := (-n) / d;
      var r := (-n) % d;
      assert -n == q * d + r;
      if r == 0 {
        assert n == (-q) * d + 0;
        DivUnique(n, d, -q, 0);
      } else {
        assert n == (-q - 1) * d + (d - r);
        DivUnique(n, d, -q - 1, d - r);
      }
    }
  }

  lemma MulCancel(x: int, y: int, d: int)
    requires d > 0 && x * d < y * d
    ensures x < y
  {
    if x >= y {
      MulMonotone(y, x, d);
    }
  }

  lemma DivMonotone(a: int, b: int, d: int)
    requires d > 0 && a <= b
    ensures a / d <= b / d
  {
    var qa := a / d;
    var qb := b / d;
    assert a == qa * d + a % d;
    assert b == qb * d + b % d;
    assert (qb + 1) * d == qb * d + d;
    MulCancel(qa, qb + 1, d);
  }

  lemma TruncDivMonotone(a: int, b: int, d: int)
    requires d > 0 && a <= b
    ensures TruncDiv(a, d) <= TruncDiv(b, d)
  {
    if a >= 0 {
      DivMonotone(a, b, d);
    } else if b < 0 {
      DivMonotone(-b, -a, d);
    } else {
      DivMonotone(0, -a, d);
      DivMonotone(0, b, d);
    }
  }

  lemma TruncDivExact(k: int, d: int)
    requires d > 0
    ensures TruncDiv(k * d, d) == k
  {
    if k >= 0 {
      MulMonotone(0, k, d);
      DivUnique(k * d, d, k, 0);
    } else {
      assert -(k * d) == (-k) * d + 0;
      MulMonotone(0, -k, d);
      DivUnique(-(k * d), d, -k, 0);
    }
  }

  lemma TruncDivGuard(n: int, hi: int, d: int)
    requires d > 0 && TruncDiv(n, d) <= hi
    ensures n < (hi + 1) * d
  {
    TruncDivAboveFloor(n, d);
    var q := n / d;
    assert n == q * d + n % d;
    assert (q + 1) * d == q * d + d;
    MulMonotone(q + 1, hi + 1, d);
  }

  /**
   * The generator `frange` in exact arithmetic: the accumulator is
   * `n / d`, it advances by `w / d`, and `int()` of it is yielded while it
   * does not exceed `hi`.
   */
  function Frange(n: int, hi: int, w: nat, d: nat): (r: seq<int>)
    requires w > 0 && d > 0
    ensures forall i :: 0 <= i < |r| ==> TruncDiv(n, d) <= r[i] <= hi
    ensures r != [] ==> r[0] == TruncDiv(n, d)
    decreases (hi + 1) * d - n
  {
    if TruncDiv(n, d) <= hi then
      TruncDivGuard(n, hi, d);
      TruncDivMonotone(n, n + w, d);
      [TruncDiv(n, d)] + Frange(n + w, hi, w, d)
    else []
  }

  predicate Nondecreasing(s: seq<int>) {
    forall i, j :: 0 <= i <= j < |s| ==> s[i] <= s[j]
  }

  /** The accumulator only grows, so `frange` yields a nondecreasing run. */
  lemma {:induction false} FrangeSorted(n: int, hi: int, w: nat, d: nat)
    requires w > 0 && d > 0
    ensures Nondecreasing(Frange(n, hi, w, d))
    decreases (hi + 1) * d - n
  {
    if TruncDiv(n, d) <= hi {
      TruncDivGuard(n, hi, d);
      TruncDivMonotone(n, n + w, d);
      FrangeSorted(n + w, hi, w, d);
      var r := Frange(n, hi, w, d);
      var rest := Frange(n + w, hi, w, d);
      assert r == [TruncDiv(n, d)] + rest;
      forall i, j | 0 <= i <= j < |r| ensures r[i] <= r[j] {
        if i > 0 {
          assert r[i] == rest[i - 1] && r[j] == rest[j - 1];
        } else if j > 0 {
          assert r[j] == rest[j - 1] && TruncDiv(n + w, d) <= rest[j - 1];
        }
      }
    }
  }

  /**
   * The integers `values` yields for a range with `nb` samples (`nb >= 2`).
   * A one-point range yields its single value.
   */
  function RangeInts(lo: int, hi: int, nb: nat): seq<int>
    requires nb >= 2
  {
    if lo == hi then [lo]
    else if hi < lo then []
    else Frange(lo * (nb - 1), hi, hi - lo, nb - 1)
  }

  lemma {:induction false} FrangeLength(n: int, hi: int, w: nat, d: nat, j: nat)
    requires w > 0 && d > 0 && n + j * w <= hi * d
    ensures |Frange(n, hi, w, d)| > j
    decreases j
  {
    TruncDivMonotone(n, hi * d, d);
    TruncDivExact(hi, d);
    if j > 0 {
      assert (n + w) + (j - 1) * w == n + j * w;
      FrangeLength(n + w, hi, w, d, j - 1);
    }
  }

  lemma {:induction false} FrangeLast(n: int, hi: int, w: nat, d: nat, j: nat)
    requires w > 0 && d > 0 && n + j * w == hi * d
    ensures Frange(n, hi, w, d) != []
    ensures Frange(n, hi, w, d)[|Frange(n, hi, w, d)| - 1] == hi
    decreases j
  {
    TruncDivMonotone(n, hi * d, d);
    TruncDivExact(hi, d);
    var r := Frange(n, hi, w, d);
    if j > 0 {
      assert (n + w) + (j - 1) * w == n + j * w;
      FrangeLast(n + w, hi, w, d, j - 1);
    } else {
      assert r[0] == hi;
      FrangeSorted(n, hi, w, d);
      assert r[|r| - 1] >= r[0];
    }
  }

  /**
   * A range with `min <= max` starts at `min`, ends at `max`, never leaves
   * `[min, max]`, never decreases and holds at least `nb` values when
   * `min < max` (one value when `min == max`).
   */
  lemma RangeIntsShape(lo: int, hi: int, nb: nat)
    requires nb >= 2 && lo <= hi
    ensures var r := RangeInts(lo, hi, nb);
      |r| >= (if lo < hi then nb else 1) && r[0] == lo && r[|r| - 1] == hi
      && (forall i :: 0 <= i < |r| ==> lo <= r[i] <= hi)
      && (forall i, j :: 0 <= i <= j < |r| ==> r[i] <= r[j])
  {
    if lo < hi {
      var d := nb - 1;
      var w := hi - lo;
      TruncDivExact(lo, d);
      assert lo * d + d * w == hi * d;
      FrangeLength(lo * d, hi, w, d, d);
      FrangeLast(lo * d, hi, w, d, d);
      FrangeSorted(lo * d, hi, w, d);
    }
  }


  /** The loop of `frange` as written, unrolled at most `fuel` times, for any step. */
  function FrangeAsWritten(n: int, hi: int, w: int, d: nat, fuel: nat): seq<int>
    requires d > 0
    decreases fuel
  {
    if fuel == 0 || TruncDiv(n, d) > hi then []
    else [TruncDiv(n, d)] + FrangeAsWritten(n + w, hi, w, d, fuel - 1)
  }

  /**
   * A range with `max < min` yields nothing: the loop as written, whose step
   * is then negative, stops before its first value, as `RangeInts` does.
   */
  lemma RangeIntsEmpty(lo: int, hi: int, nb: nat, fuel: nat)
    requires nb >= 2 && hi < lo
    ensures FrangeAsWritten(lo * (nb - 1), hi, hi - lo, nb - 1, fuel) == RangeInts(lo, hi, nb) == []
  {
    TruncDivExact(lo, nb - 1);
  }

  /** On a one-point range the step is zero and the loop as written never stops yielding. */
  lemma {:induction false} OnePointRangeNeverEnds(v: int, d: nat, fuel: nat)
    requires d > 0
    ensures FrangeAsWritten(v * d, v, 0, d, fuel) == seq(fuel, _ => v)
  {
    TruncDivExact(v, d);
    if fuel > 0 {
      OnePointRangeNeverEnds(v, d, fuel - 1);
      assert seq(fuel, _ => v) == [v] + seq(fuel - 1, _ => v);
    }
  }

  /** With a positive step and enough fuel, the loop as written yields exactly `Frange`. */
  lemma {:induction false} FrangeAsWrittenAgrees(n: int, hi: int, w: nat, d: nat, fuel: nat)
    requires w > 0 && d > 0 && fuel >= (hi + 1) * d - n
    ensures FrangeAsWritten(n, hi, w, d, fuel) == Frange(n, hi, w, d)
    decreases fuel
  {
    if TruncDiv(n, d) <= hi {
      TruncDivGuard(n, hi, d);
      FrangeAsWrittenAgrees(n + w, hi, w, d, fuel - 1);
    }
  }

  /** `'%s%d' % (flag, v)` for each value. */
  function Render(prefix: string, vs: seq<int>): (r: seq<string>)
    ensures |r| == |vs|
  {
    seq(|vs|, i requires 0 <= i < |vs| => prefix + IntToString(vs[i]))
  }

  /** Every rendered value reads back as the integer it came from, after the prefix. */
  lemma RenderRoundTrip(prefix: string, vs: seq<int>, i: nat)
    requires i < |vs|
    ensures prefix <= Render(prefix, vs)[i]
    ensures PyInt(Render(prefix, vs)[i][|prefix|..]) == Some(vs[i])
  {
    var x := IntToString(vs[i]);
    var t := Render(prefix, vs)[i];
    assert t == prefix + x;
    assert t[|prefix|..] == x;
    IntRoundTrip(vs[i]);
  }

  /** `opt_flag.values(nb)`: a choice's list as it is, a range's samples rendered. */
  function FlagValues(f: FlagSpec, nb: nat): seq<string>
    requires nb >= 2
  {
    match f
    case Range(p, lo, hi, _) => Render(p, RangeInts(lo, hi, nb))
    case Choice(cs) => cs
  }

  /** `values` returns a choice flag's list unchanged. */
  lemma ChoiceValues(cs: seq<string>, nb: nat)
    requires nb >= 2
    ensures FlagValues(Choice(cs), nb) == cs
  {
  }

  /** The `frange` loop over a range with `min < max`, collecting the rendered values. */
  method RangeValues(p: string, lo: int, hi: int, nb: nat) returns (r: seq<string>)
    requires nb >= 2 && lo < hi
    ensures r == Render(p, RangeInts(lo, hi, nb))
  {
    var d := nb - 1;
    var w := hi - lo;
    var n := lo * d;
    ghost var bound := (hi + 1) * d;
    ghost var all := Render(p, Frange(n, hi, w, d));
    assert all == Render(p, RangeInts(lo, hi, nb));
    r := [];
    assert r + all == all;
    while TruncDiv(n, d) <= hi
      invariant r + Render(p, Frange(n, hi, w, d)) == all
      decreases bound - n
    {
      RangeValuesStep(p, n, hi, w, d, r, all);
      r := r + [p + IntToString(TruncDiv(n, d))];
      n := n + w;
    }
    assert Frange(n, hi, w, d) == [];
  }

  lemma RangeValuesStep(p: string, n: int, hi: int, w: nat, d: nat, r: seq<string>, all: seq<string>)
    requires w > 0 && d > 0 && TruncDiv(n, d) <= hi
    requires r + Render(p, Frange(n, hi, w, d)) == all
    ensures (r + [p + IntToString(TruncDiv(n, d))]) + Render(p, Frange(n + w, hi, w, d)) == all
    ensures 0 <= (hi + 1) * d - n
  {
    TruncDivGuard(n, hi, d);
    var v := TruncDiv(n, d);
    var rest := Frange(n + w, hi, w, d);
    assert Frange(n, hi, w, d) == [v] + rest;
    RenderCons(p, v, rest);
    AppendShift(r, p + IntToString(v), Render(p, rest));
  }

  lemma RenderCons(p: string, v: int, rest: seq<int>)
    ensures Render(p, [v] + rest) == [p + IntToString(v)] + Render(p, rest)
  {
  }

  lemma AppendShift(r: seq<string>, x: string, tail: seq<string>)
    ensures (r + [x]) + tail == r + ([x] + tail)
  {
  }

  /** `opt_flag.values(nb)`. */
  method Values(f: FlagSpec, nb: nat) returns (r: seq<string>)
    requires nb >= 2
    ensures r == FlagValues(f, nb)
  {
    match f {
      case Choice(cs) =>
        r := cs;
      case Range(p, lo, hi, _) =>
        if lo == hi {
          r := [p + IntToString(lo)];
        } else if hi < lo {
          r := [];
        } else {
          r := RangeValues(p, lo, hi, nb);
        }
    }
  }

  // ------------------------------------------------------------------
  // str

  /** `opt_flag.str()`: the descriptor line the flag was read from. */
  function Str(f: FlagSpec): string {
    match f
    case Range(p, lo, hi, step) =>
      p + "[" + IntToString(lo) + ".." + IntToString(hi)
      + (if step != 1 then "," + IntToString(step) else "") + "]"
    case Choice(cs) => Join(cs, "|")
  }
}
