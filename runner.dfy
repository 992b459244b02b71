/**
 * `runner.quote_args`: the command line written to the debug log, where
 * every character outside `-0-9a-zA-Z%+./:=@_` is preceded by a backslash
 * and the escaped arguments are joined with single spaces.
 */
module Runner {
  import opened Text

  /** The characters `quote_args` leaves alone. */
  predicate SafeChar(c: char) {
    c == '-' || ('0' <= c <= '9') || ('a' <= c <= 'z') || ('A' <= c <= 'Z') ||
    c == '%' || c == '+' || c == '.' || c == '/' || c == ':' || c == '=' || c == '@' || c == '_'
  }

  /** One character of an argument, escaped if it is not safe. */
  function Escape(c: char): string {
    if SafeChar(c) then [c] else ['\\', c]
  }

  /** `sh_quote`: a backslash before every character that is not safe. */
  function QuoteArg(a: string): string {
    if a == [] then [] else Escape(a[0]) + QuoteArg(a[1..])
  }

  /** `quote_args`: the escaped arguments joined with single spaces. */
  function QuoteArgs(args: seq<string>): string {
    Join(QuoteEach(args), " ")
  }

  function QuoteEach(args: seq<string>): (r: seq<string>)
    ensures |r| == |args|
    ensures forall i :: 0 <= i < |args| ==> r[i] == QuoteArg(args[i])
  {
    if args == [] then [] else [QuoteArg(args[0])] + QuoteEach(args[1..])
  }

  // ------------------------------------------------------------------
  // reading the escaped line back, as a POSIX shell would

  /** Drops each escaping backslash and keeps the character after it. */
  function Unescape(q: string): string {
    if q == [] then []
    else if q[0] == '\\' && |q| >= 2 then [q[1]] + Unescape(q[2..])
    else [q[0]] + Unescape(q[1..])
  }

  /** The pieces of `q` between the spaces that no backslash escapes. */
  function SplitUnescaped(q: string): (r: seq<string>)
    ensures |r| >= 1
  {
    if q == [] then [[]]
    else if q[0] == ' ' then [[]] + SplitUnescaped(q[1..])
    else if q[0] == '\\' && |q| >= 2 then
      var r := SplitUnescaped(q[2..]);
      [q[..2] + r[0]] + r[1..]
    else
      var r := SplitUnescaped(q[1..]);
      [[q[0]] + r[0]] + r[1..]
  }

  /** Unescaping an escaped argument gives the argument back. */
  lemma {:induction false} UnescapeQuote(a: string)
    ensures Unescape(QuoteArg(a)) == a
  {
    if a != [] {
      UnescapeQuote(a[1..]);
      var q := QuoteArg(a);
      if SafeChar(a[0]) {
        assert q[0] == a[0] != '\\';
        assert q[1..] == QuoteArg(a[1..]);
      } else {
        assert q[2..] == QuoteArg(a[1..]);
      }
    }
  }

  /** `quote_args` changes an argument exactly when it holds an unsafe character. */
  lemma {:induction false} QuoteArgNoop(a: string)
    ensures QuoteArg(a) == a <==> forall i :: 0 <= i < |a| ==> SafeChar(a[i])
  {
    if a != [] {
      QuoteArgNoop(a[1..]);
      QuoteArgLength(a[1..]);
      if SafeChar(a[0]) {
        assert QuoteArg(a) == [a[0]] + QuoteArg(a[1..]);
        if QuoteArg(a) == a {
          assert QuoteArg(a)[1..] == a[1..];
        }
        assert forall i :: 0 < i < |a| ==> a[i] == a[1..][i - 1];
      } else {
        assert |QuoteArg(a)| > |a|;
      }
    }
  }

  /** Escaping never shortens an argument, and keeps only the empty one empty. */
  lemma {:induction false} QuoteArgLength(a: string)
    ensures |QuoteArg(a)| >= |a|
    ensures QuoteArg(a) == [] <==> a == []
  {
    if a != [] {
      QuoteArgLength(a[1..]);
    }
  }

  /** An escaped character never starts a new piece. */
  lemma SplitEscape(c: char, rest: string)
    ensures var r := SplitUnescaped(rest);
      SplitUnescaped(Escape(c) + rest) == [Escape(c) + r[0]] + r[1..]
  {
    var s := Escape(c) + rest;
    if SafeChar(c) {
      assert s[0] == c && s[1..] == rest;
    } else {
      assert s[0] == '\\' && s[2..] == rest && s[..2] == ['\\', c];
    }
  }

  /** An escaped argument holds no unescaped space, so it does not split. */
  lemma {:induction false} SplitQuoted(a: string, tail: string)
    ensures var t := SplitUnescaped(tail);
      SplitUnescaped(QuoteArg(a) + tail) == [QuoteArg(a) + t[0]] + t[1..]
  {
    var t := SplitUnescaped(tail);
    if a == [] {
      assert QuoteArg(a) + tail == tail;
      assert [] + t[0] == t[0];
      assert [t[0]] + t[1..] == t;
    } else {
      var e, q := Escape(a[0]), QuoteArg(a[1..]);
      var u := q + tail;
      var r := SplitUnescaped(u);
      SplitQuoted(a[1..], tail);
      assert r[0] == q + t[0] && r[1..] == t[1..];
      SplitEscape(a[0], u);
      assert QuoteArg(a) == e + q;
      Assoc(e, q, tail);
      Assoc(e, q, t[0]);
    }
  }

  /**
   * The logged line splits at its unescaped spaces into exactly the escaped
   * arguments, and each of them unescapes to the original argument.
   */
  lemma {:induction false} QuoteArgsRoundTrip(args: seq<string>)
    requires args != []
    ensures SplitUnescaped(QuoteArgs(args)) == QuoteEach(args)
    ensures forall i :: 0 <= i < |args| ==> Unescape(SplitUnescaped(QuoteArgs(args))[i]) == args[i]
  {
    var qs := QuoteEach(args);
    if |args| == 1 {
      SplitQuoted(args[0], []);
      assert QuoteArg(args[0]) + [] == QuoteArg(args[0]);
      assert SplitUnescaped([]) == [[]];
    } else {
      QuoteArgsRoundTrip(args[1..]);
      var rest := Join(qs[1..], " ");
      assert qs[1..] == QuoteEach(args[1..]);
      assert QuoteArgs(args) == QuoteArg(args[0]) + (" " + rest);
      SplitQuoted(args[0], " " + rest);
      assert (" " + rest)[1..] == rest;
      assert SplitUnescaped(" " + rest) == [[]] + qs[1..];
      assert QuoteArg(args[0]) + [] == qs[0];
      assert [qs[0]] + qs[1..] == qs;
    }
    forall i | 0 <= i < |args|
      ensures Unescape(SplitUnescaped(QuoteArgs(args))[i]) == args[i]
    {
      UnescapeQuote(args[i]);
    }
  }
}
