/**
 * The parts of Python's `str` behaviour the exploration tool relies on:
 * `strip()`, `split(sep)`, `split()`, `sep.join(...)`, `replace`, `int(s)`,
 * `'%d' % n` and the `<` order on strings.  Characters are Unicode scalar
 * values, as in Python 3.
 */
module Text {
  import opened Wrappers

  /** The characters for which Python's `str.isspace()` holds. */
  predicate IsSpace(c: char) {
    || c == ' '
    || ('\t' <= c <= '\r')
    || ('\U{1C}' <= c <= '\U{1F}')
    || c == '\U{85}' || c == '\U{A0}' || c == '\U{1680}'
    || ('\U{2000}' <= c <= '\U{200A}')
    || c == '\U{2028}' || c == '\U{2029}' || c == '\U{202F}' || c == '\U{205F}' || c == '\U{3000}'
  }

  predicate IsDigit(c: char) {
    '0' <= c <= '9'
  }

  predicate AllDigits(s: string) {
    forall i :: 0 <= i < |s| ==> IsDigit(s[i])
  }

  /** A non-empty string without whitespace: what `split()` produces. */
  predicate IsWord(w: string) {
    w != [] && forall i :: 0 <= i < |w| ==> !IsSpace(w[i])
  }

  // ------------------------------------------------------------------
  // strip

  function LStrip(s: string): (r: string)
    ensures |r| <= |s| && r == s[|s| - |r|..]
    ensures r == [] || !IsSpace(r[0])
  {
    if s != [] && IsSpace(s[0]) then LStrip(s[1..]) else s
  }

  function RStrip(s: string): (r: string)
    ensures r <= s
    ensures r == [] || !IsSpace(r[|r| - 1])
  {
    if s != [] && IsSpace(s[|s| - 1]) then RStrip(s[..|s| - 1]) else s
  }

  /** `s.strip()`: the result neither starts nor ends with whitespace. */
  function Strip(s: string): (r: string)
    ensures r == [] || (!IsSpace(r[0]) && !IsSpace(r[|r| - 1]))
  {
    RStrip(LStrip(s))
  }

  lemma StripNoop(s: string)
    requires s == [] || (!IsSpace(s[0]) && !IsSpace(s[|s| - 1]))
    ensures Strip(s) == s
  {
  }

  lemma Assoc(a: string, b: string, c: string)
    ensures a + b + c == a + (b + c)
  {
  }

  // ------------------------------------------------------------------
  // split(sep) and join

  /** `s.split(sep)` for a one-character separator: never empty, and no piece holds `sep`. */
  function Split(s: string, sep: char): (r: seq<string>)
    ensures |r| >= 1
    ensures forall i :: 0 <= i < |r| ==> sep !in r[i]
  {
    if s == [] then [[]]
    else
      var rest := Split(s[1..], sep);
      if s[0] == sep then [[]] + rest else [[s[0]] + rest[0]] + rest[1..]
  }

  /** `sep.join(parts)` */
  function Join(parts: seq<string>, sep: string): string {
    if |parts| == 0 then []
    else if |parts| == 1 then parts[0]
    else parts[0] + sep + Join(parts[1..], sep)
  }

  lemma JoinCons(c: char, p: string, ps: seq<string>, sep: string)
    ensures Join([[c] + p] + ps, sep) == [c] + Join([p] + ps, sep)
  {
    if |ps| > 0 {
      assert ([[c] + p] + ps)[1..] == ps;
      assert ([p] + ps)[1..] == ps;
    }
  }

  /** Joining a list of two fields and more peels off the first two. */
  lemma JoinTwoFront(a: string, b: string, ws: seq<string>, sep: string)
    requires ws != []
    ensures Join([a, b] + ws, sep) == a + sep + (b + sep + Join(ws, sep))
  {
    var fs := [a, b] + ws;
    assert fs[1..] == [b] + ws;
    assert ([b] + ws)[1..] == ws;
  }

  /** Joining the pieces of a split with the same separator gives back the string. */
  lemma {:induction false} JoinSplit(s: string, sep: char)
    ensures Join(Split(s, sep), [sep]) == s
  {
    if s != [] {
      var rest := Split(s[1..], sep);
      JoinSplit(s[1..], sep);
      if s[0] == sep {
        assert ([[]] + rest)[1..] == rest;
        assert Join([[]] + rest, [sep]) == [sep] + Join(rest, [sep]);
      } else {
        assert rest == [rest[0]] + rest[1..];
        JoinCons(s[0], rest[0], rest[1..], [sep]);
      }
      assert s == [s[0]] + s[1..];
    }
  }

  lemma {:induction false} SplitNoSep(a: string, sep: char)
    requires sep !in a
    ensures Split(a, sep) == [a]
  {
    if a != [] {
      SplitNoSep(a[1..], sep);
      assert a == [a[0]] + a[1..];
    }
  }

  lemma {:induction false} SplitAfterPiece(a: string, b: string, sep: char)
    requires sep !in a
    ensures Split(a + [sep] + b, sep) == [a] + Split(b, sep)
  {
    if a == [] {
      assert (a + [sep] + b)[1..] == b;
    } else {
      assert (a + [sep] + b)[1..] == a[1..] + [sep] + b;
      SplitAfterPiece(a[1..], b, sep);
      assert [a[0]] + a[1..] == a;
    }
  }

  /** Splitting a join whose pieces avoid the separator gives back the pieces. */
  lemma {:induction false} SplitJoin(parts: seq<string>, sep: char)
    requires |parts| >= 1
    requires forall i :: 0 <= i < |parts| ==> sep !in parts[i]
    ensures Split(Join(parts, [sep]), sep) == parts
  {
    if |parts| == 1 {
      SplitNoSep(parts[0], sep);
    } else {
      SplitJoin(parts[1..], sep);
      SplitAfterPiece(parts[0], Join(parts[1..], [sep]), sep);
      assert [parts[0]] + parts[1..] == parts;
    }
  }

  lemma {:induction false} JoinAppend(parts: seq<string>, last: string, sep: string)
    requires |parts| >= 1
    ensures Join(parts + [last], sep) == Join(parts, sep) + sep + last
  {
    if |parts| == 1 {
      assert (parts + [last])[1..] == [last];
    } else {
      assert (parts + [last])[1..] == parts[1..] + [last];
      JoinAppend(parts[1..], last, sep);
    }
  }

  /** Characters of a join come from the pieces or from the separator. */
  lemma {:induction false} JoinChars(parts: seq<string>, sep: string, c: char)
    requires c !in sep
    requires forall i :: 0 <= i < |parts| ==> c !in parts[i]
    ensures c !in Join(parts, sep)
  {
    if |parts| > 1 {
      JoinChars(parts[1..], sep, c);
    }
  }

  /** `[w.strip() for w in ws]` */
  function StripEach(ws: seq<string>): (r: seq<string>)
    ensures |r| == |ws|
    ensures forall i :: 0 <= i < |ws| ==> r[i] == Strip(ws[i])
  {
    seq(|ws|, i requires 0 <= i < |ws| => Strip(ws[i]))
  }

  lemma StripEachNoop(cs: seq<string>)
    requires forall i :: 0 <= i < |cs| ==> Strip(cs[i]) == cs[i]
    ensures StripEach(cs) == cs
  {
    var r := StripEach(cs);
    assert forall i :: 0 <= i < |r| ==> r[i] == cs[i];
  }

  /** Stripping keeps a contiguous part of the text, so it adds no character. */
  lemma StripKeepsOut(s: string, c: char)
    requires c !in s
    ensures c !in Strip(s)
  {
    var l := LStrip(s);
    assert l == s[|s| - |l|..];
    assert c !in l;
    var r := RStrip(l);
    assert r == l[..|r|];
  }

  /** Stripping twice is stripping once. */
  lemma StripIdempotent(s: string)
    ensures Strip(Strip(s)) == Strip(s)
  {
    StripNoop(Strip(s));
  }

  // ------------------------------------------------------------------
  // split() on whitespace runs

  /** Length of the leading run of non-whitespace characters. */
  function WordLength(s: string): (n: nat)
    ensures n <= |s|
    ensures forall i :: 0 <= i < n ==> !IsSpace(s[i])
    ensures n < |s| ==> IsSpace(s[n])
  {
    if s == [] || IsSpace(s[0]) then 0 else 1 + WordLength(s[1..])
  }

  /** `s.split()`: the maximal runs of non-whitespace characters, in order. */
  function SplitWs(s: string): (r: seq<string>)
    ensures forall i :: 0 <= i < |r| ==> IsWord(r[i])
    decreases |s|
  {
    if s == [] then []
    else if IsSpace(s[0]) then SplitWs(s[1..])
    else
      var n := WordLength(s);
      [s[..n]] + SplitWs(s[n..])
  }

  lemma {:induction false} WordLengthOfWord(w: string, t: string)
    requires IsWord(w)
    requires t == [] || IsSpace(t[0])
    ensures WordLength(w + t) == |w|
  {
    if |w| > 1 {
      assert (w + t)[1..] == w[1..] + t;
      WordLengthOfWord(w[1..], t);
    } else {
      assert (w + t)[1..] == t;
    }
  }

  /** Splitting a single-space join of words on whitespace gives back the words. */
  lemma {:induction false} SplitWsJoin(words: seq<string>)
    requires forall i :: 0 <= i < |words| ==> IsWord(words[i])
    ensures SplitWs(Join(words, " ")) == words
  {
    if |words| == 1 {
      var w := words[0];
      WordLengthOfWord(w, []);
      assert w + [] == w;
      assert w[|w|..] == [];
    } else if |words| > 1 {
      var w := words[0];
      var rest := Join(words[1..], " ");
      var s := w + " " + rest;
      assert s == w + (" " + rest);
      WordLengthOfWord(w, " " + rest);
      assert s[..|w|] == w;
      assert s[|w|..] == " " + rest;
      assert (" " + rest)[1..] == rest;
      SplitWsJoin(words[1..]);
      assert [w] + words[1..] == words;
    }
  }

  // ------------------------------------------------------------------
  // split(pat, 1)[0] and replace

  /** `s.split(pat, 1)[0]`: the text before the first occurrence of `pat`. */
  function BeforeFirst(s: string, pat: string): (r: string)
    requires |pat| > 0
    ensures r <= s
  {
    if |s| < |pat| then s
    else if pat <= s then []
    else [s[0]] + BeforeFirst(s[1..], pat)
  }

  /** `pat` occurs nowhere in `s`. */
  predicate Absent(s: string, pat: string)
    decreases |s|
  {
    |s| < |pat| || (!(pat <= s) && Absent(s[1..], pat))
  }

  lemma {:induction false} BeforeFirstAbsent(s: string, pat: string)
    requires |pat| > 0 && Absent(s, pat)
    ensures BeforeFirst(s, pat) == s
  {
    if |s| >= |pat| {
      BeforeFirstAbsent(s[1..], pat);
      assert [s[0]] + s[1..] == s;
    }
  }

  /** Splitting at a one-character separator keeps what precedes its first occurrence. */
  lemma {:induction false} BeforeFirstChar(a: string, c: char, b: string)
    requires c !in a
    ensures BeforeFirst(a + [c] + b, [c]) == a
  {
    var s := a + [c] + b;
    if a == [] {
      assert [c] <= s;
    } else {
      assert s[1..] == a[1..] + [c] + b;
      BeforeFirstChar(a[1..], c, b);
      assert [a[0]] + a[1..] == a;
    }
  }

  /** A pattern whose last character never occurs cannot occur. */
  lemma {:induction false} AbsentLastMissing(s: string, pat: string)
    requires |pat| > 0 && pat[|pat| - 1] !in s
    ensures Absent(s, pat)
  {
    if |s| >= |pat| {
      assert s[|pat| - 1] != pat[|pat| - 1];
      AbsentLastMissing(s[1..], pat);
    }
  }

  /** Appending text that lacks the pattern's last character creates no occurrence. */
  lemma {:induction false} AbsentAppend(a: string, b: string, pat: string)
    requires |pat| > 0 && Absent(a, pat) && pat[|pat| - 1] !in b
    ensures Absent(a + b, pat)
  {
    if a == [] {
      assert a + b == b;
      AbsentLastMissing(b, pat);
    } else {
      if |a + b| >= |pat| {
        if |pat| <= |a| {
          assert (a + b)[..|pat|] == a[..|pat|];
        } else {
          assert (a + b)[|pat| - 1] == b[|pat| - 1 - |a|] != pat[|pat| - 1];
        }
      }
      assert (a + b)[1..] == a[1..] + b;
      AbsentAppend(a[1..], b, pat);
    }
  }

  /** A separator character foreign to the pattern creates no occurrence. */
  lemma {:induction false} AbsentAroundSeparator(a: string, x: char, b: string, pat: string)
    requires |pat| > 0 && x !in pat && Absent(a, pat) && Absent(b, pat)
    ensures Absent(a + [x] + b, pat)
  {
    var s := a + [x] + b;
    if a == [] {
      assert s[0] == x;
      assert s[1..] == b;
    } else {
      if |s| >= |pat| {
        if |pat| <= |a| {
          assert s[..|pat|] == a[..|pat|];
        } else {
          assert s[|a|] == x != pat[|a|];
        }
      }
      assert s[1..] == a[1..] + [x] + b;
      AbsentAroundSeparator(a[1..], x, b, pat);
    }
  }

  /** `s.replace(pat, rep, 1)` for a non-empty pattern. */
  function ReplaceFirst(s: string, pat: string, rep: string): string
    requires |pat| > 0
  {
    if s == [] then []
    else if pat <= s then rep + s[|pat|..]
    else [s[0]] + ReplaceFirst(s[1..], pat, rep)
  }

  lemma ReplaceFirstHere(pat: string, x: string, rep: string)
    requires |pat| > 0
    ensures ReplaceFirst(pat + x, pat, rep) == rep + x
  {
    assert (pat + x)[|pat|..] == x;
  }

  lemma ReplaceFirstSkip(c: char, t: string, pat: string, rep: string)
    requires |pat| > 0 && pat[0] != c
    ensures ReplaceFirst([c] + t, pat, rep) == [c] + ReplaceFirst(t, pat, rep)
  {
    assert ([c] + t)[1..] == t;
  }

  /** `s.replace(pat, rep)`: every non-overlapping occurrence, left to right.
      An empty pattern matches before every character and at the end. */
  function ReplaceAll(s: string, pat: string, rep: string): string
    decreases |s|
  {
    if pat == [] then (if s == [] then rep else rep + [s[0]] + ReplaceAll(s[1..], pat, rep))
    else if s == [] then []
    else if pat <= s then rep + ReplaceAll(s[|pat|..], pat, rep)
    else [s[0]] + ReplaceAll(s[1..], pat, rep)
  }

  // ------------------------------------------------------------------
  // int(s) and '%d' % n

  function DigitValue(c: char): nat
    requires IsDigit(c)
  {
    c as int - '0' as int
  }

  function DigitChar(d: nat): (c: char)
    requires d < 10
    ensures IsDigit(c) && DigitValue(c) == d
  {
    ('0' as int + d) as char
  }

  function DigitsValue(s: string): nat
    requires AllDigits(s)
    decreases |s|
  {
    if s == [] then 0 else DigitsValue(s[..|s| - 1]) * 10 + DigitValue(s[|s| - 1])
  }

  /** Decimal digits of `n`: non-empty, all digits, and denoting `n`. */
  function NatToString(n: nat): (r: string)
    ensures r != [] && AllDigits(r) && DigitsValue(r) == n
  {
    if n < 10 then [DigitChar(n)]
    else
      var r := NatToString(n / 10) + [DigitChar(n % 10)];
      assert r[..|r| - 1] == NatToString(n / 10);
      r
  }

  /** `'%d' % v` (and `str(v)`) for an integer. */
  function IntToString(v: int): (r: string)
    ensures r != [] && IsDigit(r[|r| - 1])
    ensures forall i :: 0 <= i < |r| ==> IsDigit(r[i]) || (i == 0 && r[i] == '-')
  {
    if v < 0 then "-" + NatToString(-v) else NatToString(v)
  }

  /** `int(s)` on a string: surrounding whitespace, one optional sign, then ASCII digits. */
  function PyInt(s: string): Option<int> {
    SignedDigits(Strip(s))
  }

  /** An optional sign followed by one or more decimal digits, with nothing around them. */
  function SignedDigits(t: string): Option<int> {
    if t != [] && (t[0] == '-' || t[0] == '+') then
      if t[1..] != [] && AllDigits(t[1..]) then
        var n: int := DigitsValue(t[1..]);
        Some(if t[0] == '-' then -n else n)
      else None
    else if t != [] && AllDigits(t) then Some(DigitsValue(t))
    else None
  }

  /** The decimal form of an integer has no surrounding whitespace. */
  lemma IntStringStripped(v: int)
    ensures Strip(IntToString(v)) == IntToString(v)
  {
    var r := IntToString(v);
    assert IsDigit(r[0]) || r[0] == '-';
    StripNoop(r);
  }

  /** `int(str(v)) == v`. */
  lemma IntRoundTrip(v: int)
    ensures PyInt(IntToString(v)) == Some(v)
  {
    IntStringStripped(v);
    if v < 0 {
      SignedNegative(NatToString(-v));
    } else {
      SignedUnsigned(NatToString(v));
    }
  }

  lemma SignedUnsigned(d: string)
    requires d != [] && AllDigits(d)
    ensures SignedDigits(d) == Some(DigitsValue(d))
  {
    assert IsDigit(d[0]);
  }

  lemma SignedNegative(d: string)
    requires d != [] && AllDigits(d)
    ensures SignedDigits("-" + d) == Some(-(DigitsValue(d) as int))
  {
    var t := "-" + d;
    assert t[0] == '-' && t[1..] == d;
  }

  /** `int(w)` for every word of a list, or `None` as soon as one is not an integer. */
  function PyInts(ws: seq<string>): (r: Option<seq<int>>)
    ensures r.Some? ==> |r.value| == |ws| && forall i :: 0 <= i < |ws| ==> PyInt(ws[i]) == Some(r.value[i])
    ensures r.None? ==> exists i :: 0 <= i < |ws| && PyInt(ws[i]).None?
  {
    if forall i :: 0 <= i < |ws| ==> PyInt(ws[i]).Some? then
      Some(seq(|ws|, i requires 0 <= i < |ws| => PyInt(ws[i]).value))
    else None
  }

  /** Decimal forms of a list of integers: `map(str, values)`. */
  function IntStrings(vs: seq<int>): (r: seq<string>)
    ensures |r| == |vs| && forall i :: 0 <= i < |vs| ==> r[i] == IntToString(vs[i])
  {
    seq(|vs|, i requires 0 <= i < |vs| => IntToString(vs[i]))
  }

  lemma IntStringsRoundTrip(vs: seq<int>)
    ensures PyInts(IntStrings(vs)) == Some(vs)
  {
    var ws := IntStrings(vs);
    forall i | 0 <= i < |vs|
      ensures PyInt(ws[i]) == Some(vs[i])
    {
      IntRoundTrip(vs[i]);
    }
    assert PyInts(ws).value == vs;
  }

  lemma IntStringIsWord(v: int)
    ensures IsWord(IntToString(v))
  {
  }

  // ------------------------------------------------------------------
  // ordering

  /** Python's `<` on strings: code-point lexicographic order, a proper prefix first. */
  predicate Less(a: string, b: string)
    decreases |a|
  {
    if a == [] then b != []
    else b != [] && (a[0] < b[0] || (a[0] == b[0] && Less(a[1..], b[1..])))
  }

  lemma {:induction false} LessIrreflexive(a: string)
    ensures !Less(a, a)
  {
    if a != [] {
      LessIrreflexive(a[1..]);
    }
  }

  lemma {:induction false} LessTransitive(a: string, b: string, c: string)
    requires Less(a, b) && Less(b, c)
    ensures Less(a, c)
  {
    if a != [] && a[0] == b[0] && b[0] == c[0] {
      LessTransitive(a[1..], b[1..], c[1..]);
    }
  }

  lemma {:induction false} LessTotal(a: string, b: string)
    ensures Less(a, b) || a == b || Less(b, a)
  {
    if a != [] && b != [] && a[0] == b[0] {
      LessTotal(a[1..], b[1..]);
      if a[1..] == b[1..] {
        assert a == [a[0]] + a[1..] && b == [b[0]] + b[1..];
      }
    }
  }
}
