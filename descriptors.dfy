/**
 * The flags descriptor file read by `opt_flag_list.__init__`: one flag per
 * line, `#` and `//` start comments, `PREFIX[min..max(,step)]` declares a
 * range and anything else is a `|`-separated list of choices.  The range
 * pattern `^(.*)\[(.*)\.\.([^,]*)(?:,(.*))?\]` is matched by hand, in the
 * order a backtracking regex engine tries the alternatives.
 */
module Descriptors {
  import opened Wrappers
  import opened Text
  import opened FlagSpecs

  /** The groups captured by the range pattern. */
  datatype RangeGroups = RangeGroups(prefix: string, lo: string, hi: string, step: Option<string>)

  /** What one line of the file contributes. */
  datatype LineResult =
    | Blank                  // empty once comments and blanks are removed
    | Flag(spec: FlagSpec)
    | Malformed              // a range whose bounds are not integers: `int()` raises

  // ------------------------------------------------------------------
  // the range pattern

  /** `s.rfind(c)`: the last index of `c`, or -1. */
  function LastIndex(s: string, c: char): (r: int)
    ensures -1 <= r < |s|
    ensures r == -1 <==> c !in s
    ensures r >= 0 ==> s[r] == c && c !in s[r + 1..]
  {
    if s == [] then -1
    else if s[|s| - 1] == c then |s| - 1
    else
      var k := LastIndex(s[..|s| - 1], c);
      assert s == s[..|s| - 1] + [s[|s| - 1]];
      if k >= 0 then assert s[k + 1..] == s[..|s| - 1][k + 1..] + [s[|s| - 1]]; k
      else k
  }

  /**
   * `([^,]*)(?:,(.*))?\]` at the start of `r`: the longest comma-free run
   * followed by `,` and text up to the last `]` is tried first; otherwise the
   * run is cut back to its last `]`.
   */
  function MatchTail(r: string): Option<(string, Option<string>)> {
    var m := Find(r, ',');
    var run := if m == -1 then |r| else m;
    if m != -1 && ']' in r[m + 1..] then
      var rest := r[m + 1..];
      Some((r[..m], Some(rest[..LastIndex(rest, ']')])))
    else if ']' in r[..run] then
      Some((r[..LastIndex(r[..run], ']')], None))
    else None
  }

  /** `(.*)\.\.` then the tail, trying the split points `j, j - 1, ..., 0`. */
  function MatchMiddleFrom(t: string, j: int): Option<(string, string, Option<string>)>
    requires j < |t|
    decreases j + 1
  {
    if j < 0 then None
    else if j + 1 < |t| && t[j] == '.' && t[j + 1] == '.' && MatchTail(t[j + 2..]).Some? then
      var tail := MatchTail(t[j + 2..]).value;
      Some((t[..j], tail.0, tail.1))
    else MatchMiddleFrom(t, j - 1)
  }

  /** `(.*)\[` then the rest, trying the positions `i, i - 1, ..., 0` of the bracket. */
  function MatchRangeFrom(line: string, i: int): Option<RangeGroups>
    requires i < |line|
    decreases i + 1
  {
    if i < 0 then None
    else if line[i] == '[' && MatchMiddleFrom(line[i + 1..], |line| - i - 2).Some? then
      var mid := MatchMiddleFrom(line[i + 1..], |line| - i - 2).value;
      Some(RangeGroups(line[..i], mid.0, mid.1, mid.2))
    else MatchRangeFrom(line, i - 1)
  }

  /** `re.match` of the range pattern on a line (which holds no newline). */
  function MatchRange(line: string): Option<RangeGroups> {
    MatchRangeFrom(line, |line| - 1)
  }

  // ------------------------------------------------------------------
  // one line

  /** The line with its `#` comment, then its `//` comment, removed and stripped. */
  function Uncomment(line: string): string {
    Strip(BeforeFirst(Strip(BeforeFirst(line, "#")), "//"))
  }

  /** `opt_flag(frange=groups)`: `int()` of each bound, an absent or empty step meaning 1. */
  function RangeOf(g: RangeGroups): LineResult {
    var lo := PyInt(g.lo);
    var hi := PyInt(g.hi);
    var step := if g.step.None? || g.step.value == [] then Some(1) else PyInt(g.step.value);
    if lo.None? || hi.None? || step.None? then Malformed
    else Flag(Range(g.prefix, lo.value, hi.value, step.value))
  }

  /** One iteration of the loop in `opt_flag_list.__init__`. */
  function ParseLine(line: string): LineResult {
    var l := Uncomment(line);
    if l == [] then Blank
    else match MatchRange(l)
      case Some(g) => RangeOf(g)
      case None => Flag(Choice(StripEach(Split(l, '|'))))
  }

  /** What each line of the file contributes, in order. */
  function ParseLines(lines: seq<string>): (r: seq<LineResult>)
    ensures |r| == |lines| && forall i :: 0 <= i < |lines| ==> r[i] == ParseLine(lines[i])
  {
    seq(|lines|, i requires 0 <= i < |lines| => ParseLine(lines[i]))
  }

  /** The flags of a run of line results in order, or `None` from the first line that raises. */
  function Collect(rs: seq<LineResult>): Option<seq<FlagSpec>> {
    if rs == [] then Some([])
    else
      match rs[0]
      case Malformed => None
      case Blank => Collect(rs[1..])
      case Flag(f) =>
        match Collect(rs[1..])
        case None => None
        case Some(fs) => Some([f] + fs)
  }

  /** The whole file: the flags in order, or `None` when a line raises. */
  function ParseFile(lines: seq<string>): Option<seq<FlagSpec>> {
    Collect(ParseLines(lines))
  }

  function Prepend(fs: seq<FlagSpec>, r: Option<seq<FlagSpec>>): Option<seq<FlagSpec>> {
    if r.None? then None else Some(fs + r.value)
  }

  lemma CollectCons(rs: seq<LineResult>)
    requires rs != []
    ensures Collect(rs) == match rs[0]
      case Malformed => None
      case Blank => Collect(rs[1..])
      case Flag(f) => Prepend([f], Collect(rs[1..]))
  {
  }

  lemma PrependTwice(fs: seq<FlagSpec>, gs: seq<FlagSpec>, r: Option<seq<FlagSpec>>)
    ensures Prepend(fs, Prepend(gs, r)) == Prepend(fs + gs, r)
  {
    if r.Some? {
      assert fs + (gs + r.value) == (fs + gs) + r.value;
    }
  }

  /** `opt_flag_list.__init__`: extends the flag list line by line. */
  method Load(lines: seq<string>) returns (r: Option<seq<FlagSpec>>)
    ensures r == ParseFile(lines)
  {
    ghost var rs := ParseLines(lines);
    var flags: seq<FlagSpec> := [];
    var i := 0;
    assert rs[0..] == rs;
    assert Collect(rs) == Prepend(flags, Collect(rs[0..])) by {
      var o := Collect(rs);
      if o.Some? {
        assert [] + o.value == o.value;
      }
    }
    while i < |lines|
      invariant 0 <= i <= |lines|
      invariant Collect(rs) == Prepend(flags, Collect(rs[i..]))
    {
      var res := ParseLine(lines[i]);
      CollectCons(rs[i..]);
      assert rs[i..][0] == res && rs[i..][1..] == rs[i + 1..];
      match res {
        case Malformed =>
          return None;
        case Blank =>
        case Flag(f) =>
          PrependTwice(flags, [f], Collect(rs[i + 1..]));
          flags := flags + [f];
      }
      i := i + 1;
    }
    assert rs[i..] == [];
    r := Some(flags);
    assert flags + [] == flags;
  }

  // ------------------------------------------------------------------
  // comments

  /** A `#` comment does not change how a line reads. */
  lemma CommentIgnored(line: string, comment: string)
    requires '#' !in line
    ensures ParseLine(line + "#" + comment) == ParseLine(line)
  {
    BeforeFirstChar(line, '#', comment);
    AbsentLastMissing(line, "#");
    BeforeFirstAbsent(line, "#");
  }

  // ------------------------------------------------------------------
  // str() reads back

  /** A range flag whose descriptor line reads back as the same flag. */
  predicate PrintableRange(p: string) {
    '#' !in p && Absent(p, "//") && (p == [] || !IsSpace(p[0]))
  }

  /** A choice flag whose descriptor line reads back as the same flag. */
  predicate PrintableChoice(cs: seq<string>) {
    Join(cs, "|") != []
    && forall i :: 0 <= i < |cs| ==>
      Strip(cs[i]) == cs[i] && '|' !in cs[i] && '#' !in cs[i] && '[' !in cs[i] && Absent(cs[i], "//")
  }

  predicate Printable(f: FlagSpec) {
    match f
    case Range(p, _, _, _) => PrintableRange(p)
    case Choice(cs) => PrintableChoice(cs)
  }

  /** A line that survives comment removal unchanged. */
  lemma UncommentNoop(line: string)
    requires '#' !in line && Absent(line, "//")
    requires line == [] || (!IsSpace(line[0]) && !IsSpace(line[|line| - 1]))
    ensures Uncomment(line) == line
  {
    AbsentLastMissing(line, "#");
    BeforeFirstAbsent(line, "#");
    StripNoop(line);
    BeforeFirstAbsent(line, "//");
  }

  lemma {:induction false} MatchRangeSkip(line: string, i: int, k: int)
    requires -1 <= k <= i < |line|
    requires forall j :: k < j <= i ==> line[j] != '['
    ensures MatchRangeFrom(line, i) == MatchRangeFrom(line, k)
    decreases i - k
  {
    if k < i {
      MatchRangeSkip(line, i - 1, k);
    }
  }

  lemma {:induction false} MatchMiddleSkip(t: string, j: int, k: int)
    requires -1 <= k <= j < |t|
    requires forall y :: k + 1 < y <= j + 1 && y < |t| ==> t[y] != '.'
    ensures MatchMiddleFrom(t, j) == MatchMiddleFrom(t, k)
    decreases j - k
  {
    if k < j {
      MatchMiddleSkip(t, j - 1, k);
    }
  }

  lemma NoBracketNoRange(line: string, i: int)
    requires -1 <= i < |line| && '[' !in line
    ensures MatchRangeFrom(line, i) == None
  {
    MatchRangeSkip(line, i, -1);
  }

  /** The tail of a printed range: the upper bound, then an optional step. */
  lemma MatchTailPrinted(b: string, c: Option<string>)
    requires ',' !in b && ']' !in b
    requires c.Some? ==> ']' !in c.value
    ensures MatchTail(b + (if c.Some? then "," + c.value else "") + "]") == Some((b, c))
  {
    if c.None? {
      assert b + "" + "]" == b + "]";
      MatchTailBare(b);
    } else {
      Assoc(b, "," + c.value, "]");
      Assoc(",", c.value, "]");
      MatchTailStep(b, c.value);
    }
  }

  lemma MatchTailBare(b: string)
    requires ',' !in b && ']' !in b
    ensures MatchTail(b + "]") == Some((b, None))
  {
    var r := b + "]";
    assert ',' !in r;
    assert r[..|r|] == r;
    assert LastIndex(r, ']') == |b|;
  }

  lemma MatchTailStep(b: string, c: string)
    requires ',' !in b && ']' !in b && ']' !in c
    ensures MatchTail(b + ("," + (c + "]"))) == Some((b, Some(c)))
  {
    var r := b + ("," + (c + "]"));
    assert r[|b|] == ',' && r[..|b|] == b;
    FindAt(r, ',', |b|);
    var rest := c + "]";
    assert r[|b| + 1..] == rest;
    assert LastIndex(rest, ']') == |c|;
    assert rest[..|c|] == c;
  }

  /** Chars of a printed number. */
  lemma IntStringChars(v: int)
    ensures var s := IntToString(v);
      '#' !in s && '/' !in s && '[' !in s && ']' !in s && '.' !in s && ',' !in s && '|' !in s
  {
    var s := IntToString(v);
    forall i | 0 <= i < |s| ensures s[i] != '#' && s[i] != '/' && s[i] != '[' && s[i] != ']'
      && s[i] != '.' && s[i] != ',' && s[i] != '|'
    {
    }
  }

  /** A printed range line is left alone by comment removal. */
  lemma RangeLineUncommented(p: string, t: string)
    requires PrintableRange(p)
    requires '#' !in t && '/' !in t && t != [] && t[|t| - 1] == ']'
    ensures Uncomment(p + "[" + t) == p + "[" + t
  {
    var rest := "[" + t;
    var line := p + "[" + t;
    assert line == p + rest;
    assert '#' !in rest && '/' !in rest;
    AbsentAppend(p, rest, "//");
    LineEnds(p, t);
    UncommentNoop(line);
  }

  lemma LineEnds(p: string, t: string)
    requires p == [] || !IsSpace(p[0])
    requires t != [] && t[|t| - 1] == ']'
    ensures var line := p + "[" + t; !IsSpace(line[0]) && !IsSpace(line[|line| - 1])
  {
    var line := p + "[" + t;
    assert line[|line| - 1] == ']';
    assert line[0] == (if p == [] then '[' else p[0]);
  }

  /** The bracket found is the one after the prefix, when the rest holds no other. */
  lemma RangeLineBracket(p: string, t: string)
    requires '[' !in t && MatchMiddleFrom(t, |t| - 1).Some?
    ensures var mid := MatchMiddleFrom(t, |t| - 1).value;
      MatchRange(p + "[" + t) == Some(RangeGroups(p, mid.0, mid.1, mid.2))
  {
    var line := p + "[" + t;
    assert line[|p|] == '[' && line[|p| + 1..] == t && line[..|p|] == p;
    forall j | |p| < j < |line| ensures line[j] != '[' {
      assert line[j] == t[j - |p| - 1];
    }
    MatchRangeSkip(line, |line| - 1, |p|);
  }

  /** The two dots found are the last ones, when the tail holds no dot. */
  lemma MiddlePrinted(a: string, tail: string)
    requires '.' !in tail && MatchTail(tail).Some?
    ensures var t := a + ".." + tail;
      MatchMiddleFrom(t, |t| - 1) == Some((a, MatchTail(tail).value.0, MatchTail(tail).value.1))
  {
    var t := a + ".." + tail;
    forall y | |a| + 1 < y <= |t| && y < |t| ensures t[y] != '.' {
      assert t[y] == tail[y - |a| - 2];
    }
    MatchMiddleSkip(t, |t| - 1, |a|);
    assert t[|a|] == '.' && t[|a| + 1] == '.' && t[|a| + 2..] == tail && t[..|a|] == a;
  }

  lemma ParseRangeLine(line: string, g: RangeGroups)
    requires Uncomment(line) == line && line != [] && MatchRange(line) == Some(g)
    ensures ParseLine(line) == RangeOf(g)
  {
  }

  lemma RangeOfPrinted(p: string, lo: int, hi: int, step: int)
    ensures RangeOf(RangeGroups(p, IntToString(lo), IntToString(hi),
      if step != 1 then Some(IntToString(step)) else None)) == Flag(Range(p, lo, hi, step))
  {
    IntRoundTrip(lo);
    IntRoundTrip(hi);
    if step != 1 {
      IntRoundTrip(step);
    }
    RangeOfParsed(p, IntToString(lo), IntToString(hi),
      if step != 1 then Some(IntToString(step)) else None, lo, hi, step);
  }

  lemma RangeOfParsed(p: string, a: string, b: string, c: Option<string>, lo: int, hi: int, step: int)
    requires PyInt(a) == Some(lo) && PyInt(b) == Some(hi)
    requires c.None? ==> step == 1
    requires c.Some? ==> c.value != [] && PyInt(c.value) == Some(step)
    ensures RangeOf(RangeGroups(p, a, b, c)) == Flag(Range(p, lo, hi, step))
  {
  }

  /** The text after the bracket of a printed range. */
  function PrintedTail(hi: int, step: int): string {
    IntToString(hi) + (if step != 1 then "," + IntToString(step) else "") + "]"
  }

  lemma PrintedTailChars(lo: int, hi: int, step: int)
    ensures var tail := PrintedTail(hi, step);
      var t := IntToString(lo) + ".." + tail;
      '#' !in t && '/' !in t && '[' !in t && '.' !in tail && t[|t| - 1] == ']'
  {
    IntStringChars(lo);
    TailChars(hi, step);
  }

  lemma TailChars(hi: int, step: int)
    ensures var tail := PrintedTail(hi, step);
      '#' !in tail && '/' !in tail && '[' !in tail && '.' !in tail && tail[|tail| - 1] == ']'
  {
    var b := IntToString(hi);
    IntStringChars(hi);
    if step != 1 {
      var c := IntToString(step);
      IntStringChars(step);
      assert PrintedTail(hi, step) == b + ("," + c + "]");
    } else {
      assert PrintedTail(hi, step) == b + "]";
    }
  }

  lemma PrintedTailMatch(hi: int, step: int)
    ensures MatchTail(PrintedTail(hi, step))
      == Some((IntToString(hi), if step != 1 then Some(IntToString(step)) else None))
  {
    IntStringChars(hi);
    IntStringChars(step);
    var c: Option<string> := if step != 1 then Some(IntToString(step)) else None;
    MatchTailPrinted(IntToString(hi), c);
    assert PrintedTail(hi, step) == IntToString(hi) + (if c.Some? then "," + c.value else "") + "]";
  }

  /** The range pattern captures the prefix, both bounds and the step of a printed range. */
  lemma MatchPrinted(p: string, lo: int, hi: int, step: int)
    ensures MatchRange(p + "[" + (IntToString(lo) + ".." + PrintedTail(hi, step)))
      == Some(RangeGroups(p, IntToString(lo), IntToString(hi),
           if step != 1 then Some(IntToString(step)) else None))
  {
    var tail := PrintedTail(hi, step);
    var t := IntToString(lo) + ".." + tail;
    PrintedTailChars(lo, hi, step);
    PrintedTailMatch(hi, step);
    MiddlePrinted(IntToString(lo), tail);
    RangeLineBracket(p, t);
  }

  lemma StrRange(p: string, lo: int, hi: int, step: int)
    ensures Str(Range(p, lo, hi, step)) == p + "[" + (IntToString(lo) + ".." + PrintedTail(hi, step))
  {
    var l, a, b := p + "[", IntToString(lo), IntToString(hi);
    var x := if step != 1 then "," + IntToString(step) else "";
    var t := b + x + "]";
    assert PrintedTail(hi, step) == t;
    calc {
      Str(Range(p, lo, hi, step));
      l + a + ".." + b + x + "]";
      { Assoc(l + a + ".." + b, x, "]"); }
      l + a + ".." + b + (x + "]");
      { Assoc(l + a + "..", b, x + "]"); Assoc(b, x, "]"); }
      l + a + ".." + t;
      { Assoc(l + a, "..", t); }
      l + a + (".." + t);
      { Assoc(l, a, ".." + t); Assoc(a, "..", t); }
      l + (a + ".." + t);
    }
  }

  /** `str()` of a range flag reads back as the same flag. */
  lemma RangeRoundTrip(p: string, lo: int, hi: int, step: int)
    requires PrintableRange(p)
    ensures ParseLine(Str(Range(p, lo, hi, step))) == Flag(Range(p, lo, hi, step))
  {
    var a := IntToString(lo);
    var b := IntToString(hi);
    var c: Option<string> := if step != 1 then Some(IntToString(step)) else None;
    var tail := PrintedTail(hi, step);
    var t := a + ".." + tail;
    var line := p + "[" + t;
    StrRange(p, lo, hi, step);
    PrintedTailChars(lo, hi, step);
    RangeLineUncommented(p, t);
    MatchPrinted(p, lo, hi, step);
    var g := RangeGroups(p, a, b, c);
    ParseRangeLine(line, g);
    RangeOfPrinted(p, lo, hi, step);
  }

  lemma {:induction false} JoinBarChars(cs: seq<string>, ch: char)
    requires ch != '|'
    requires forall i :: 0 <= i < |cs| ==> ch !in cs[i]
    ensures ch !in Join(cs, "|")
  {
    JoinChars(cs, "|", ch);
  }

  lemma {:induction false} JoinBarAbsent(cs: seq<string>)
    requires forall i :: 0 <= i < |cs| ==> Absent(cs[i], "//")
    ensures Absent(Join(cs, "|"), "//")
  {
    if |cs| == 0 {
    } else if |cs| > 1 {
      JoinBarAbsent(cs[1..]);
      AbsentAroundSeparator(cs[0], '|', Join(cs[1..], "|"), "//");
      assert cs[0] + "|" + Join(cs[1..], "|") == cs[0] + ['|'] + Join(cs[1..], "|");
    }
  }

  /** The join of stripped pieces neither starts nor ends with a blank. */
  lemma {:induction false} JoinBarEnds(cs: seq<string>)
    requires forall i :: 0 <= i < |cs| ==> Strip(cs[i]) == cs[i]
    ensures var s := Join(cs, "|");
      s == [] || (!IsSpace(s[0]) && !IsSpace(s[|s| - 1]))
  {
    if |cs| == 1 {
      assert Strip(cs[0]) == cs[0];
    } else if |cs| > 1 {
      JoinBarEnds(cs[1..]);
      var h := cs[0];
      assert Strip(h) == h;
      var tl := Join(cs[1..], "|");
      JoinBarEndsStep(h, tl);
    }
  }

  lemma JoinBarEndsStep(h: string, tl: string)
    requires h == [] || (!IsSpace(h[0]) && !IsSpace(h[|h| - 1]))
    requires tl == [] || (!IsSpace(tl[0]) && !IsSpace(tl[|tl| - 1]))
    ensures var s := h + "|" + tl; !IsSpace(s[0]) && !IsSpace(s[|s| - 1])
  {
    var s := h + "|" + tl;
    assert s[0] == if h == [] then '|' else h[0];
    assert s[|s| - 1] == if tl == [] then '|' else tl[|tl| - 1];
  }

  /** `str()` of a choice flag reads back as the same flag. */
  lemma ChoiceRoundTrip(cs: seq<string>)
    requires PrintableChoice(cs)
    ensures ParseLine(Str(Choice(cs))) == Flag(Choice(cs))
  {
    var line := Join(cs, "|");
    JoinBarChars(cs, '#');
    JoinBarChars(cs, '[');
    JoinBarAbsent(cs);
    JoinBarEnds(cs);
    UncommentNoop(line);
    NoBracketNoRange(line, |line| - 1);
    assert |cs| >= 1;
    SplitJoin(cs, '|');
    StripEachNoop(cs);
  }

  /** Every printable flag reads back from its descriptor line. */
  lemma StrRoundTrip(f: FlagSpec)
    requires Printable(f)
    ensures ParseLine(Str(f)) == Flag(f)
  {
    match f
    case Range(p, lo, hi, step) => RangeRoundTrip(p, lo, hi, step);
    case Choice(cs) => ChoiceRoundTrip(cs);
  }

  function StrAll(fs: seq<FlagSpec>): (r: seq<string>)
    ensures |r| == |fs| && forall i :: 0 <= i < |fs| ==> r[i] == Str(fs[i])
  {
    seq(|fs|, i requires 0 <= i < |fs| => Str(fs[i]))
  }

  /** A file written by printing each flag with `str()` loads back as the same list. */
  lemma FileRoundTrip(fs: seq<FlagSpec>)
    requires forall i :: 0 <= i < |fs| ==> Printable(fs[i])
    ensures ParseFile(StrAll(fs)) == Some(fs)
  {
    var rs := ParseLines(StrAll(fs));
    forall i | 0 <= i < |fs| ensures rs[i] == Flag(fs[i]) {
      StrRoundTrip(fs[i]);
    }
    CollectFlags(rs, fs);
  }

  lemma {:induction false} CollectFlags(rs: seq<LineResult>, fs: seq<FlagSpec>)
    requires |rs| == |fs| && forall i :: 0 <= i < |rs| ==> rs[i] == Flag(fs[i])
    ensures Collect(rs) == Some(fs)
  {
    if rs != [] {
      CollectFlags(rs[1..], fs[1..]);
      assert [fs[0]] + fs[1..] == fs;
    }
  }
}
