/**
 * `opt_flag_list.parse_line`: a command line becomes its non-empty
 * space-separated words, where `--param`, `-mllvm` and `-Xclang` are glued
 * to the word that follows them.
 */
module CommandLine {
  import opened Text

  /** The options whose argument is a separate word. */
  predicate IsFuser(w: string) {
    w == "--param" || w == "-mllvm" || w == "-Xclang"
  }

  /** The words that remain after dropping empty strings. */
  function NonEmpty(ws: seq<string>): (r: seq<string>)
    ensures |r| <= |ws|
    ensures forall w :: w in r <==> w in ws && w != []
    ensures forall w :: w != [] ==> multiset(r)[w] == multiset(ws)[w]
  {
    if ws == [] then []
    else
      assert ws == [ws[0]] + ws[1..];
      if ws[0] == [] then NonEmpty(ws[1..])
      else [ws[0]] + NonEmpty(ws[1..])
  }

  /** Filtering keeps the order: the pieces of a concatenation stay in place. */
  lemma {:induction false} NonEmptyAppend(a: seq<string>, b: seq<string>)
    ensures NonEmpty(a + b) == NonEmpty(a) + NonEmpty(b)
  {
    if a != [] {
      assert (a + b)[0] == a[0] && (a + b)[1..] == a[1..] + b;
      NonEmptyAppend(a[1..], b);
    } else {
      assert a + b == b;
    }
  }

  /** A word of a command line: non-empty, no space, no surrounding blanks. */
  predicate IsCmdWord(w: string) {
    w != [] && ' ' !in w && Strip(w) == w
  }

  /** A space-free piece, once stripped, is a word unless it is empty. */
  lemma StrippedPiece(p: string)
    requires ' ' !in p
    ensures Strip(p) == [] || IsCmdWord(Strip(p))
  {
    StripKeepsOut(p, ' ');
    StripIdempotent(p);
  }

  /** The non-empty stripped pieces of a space-split text are all words. */
  lemma {:induction false} StrippedWords(pieces: seq<string>)
    requires forall i :: 0 <= i < |pieces| ==> ' ' !in pieces[i]
    ensures forall i :: 0 <= i < |NonEmpty(StripEach(pieces))| ==> IsCmdWord(NonEmpty(StripEach(pieces))[i])
  {
    if pieces != [] {
      StrippedWords(pieces[1..]);
      StrippedPiece(pieces[0]);
      var s := StripEach(pieces);
      assert s[1..] == StripEach(pieces[1..]);
      assert s[0] == Strip(pieces[0]);
    }
  }

  /** `filter(bool, [x.strip() for x in cmdline.strip().split(' ')])` */
  function Words(cmdline: string): seq<string> {
    NonEmpty(StripEach(Split(Strip(cmdline), ' ')))
  }

  /** Every word is non-empty, holds no space and has no blanks around it. */
  lemma WordsShape(cmdline: string)
    ensures forall i :: 0 <= i < |Words(cmdline)| ==> IsCmdWord(Words(cmdline)[i])
  {
    StrippedWords(Split(Strip(cmdline), ' '));
  }

  /** The loop of `parse_line` over the word list, as a recursive definition. */
  function Fuse(ws: seq<string>): seq<string>
  {
    if ws == [] then []
    else if IsFuser(ws[0]) && |ws| >= 2 then [ws[0] + " " + ws[1]] + Fuse(ws[2..])
    else [ws[0]] + Fuse(ws[1..])
  }

  /** One step of `Fuse` taken at position `idx`. */
  lemma FuseStep(ws: seq<string>, idx: nat)
    requires idx < |ws|
    ensures Fuse(ws[idx..]) ==
      if IsFuser(ws[idx]) && idx + 1 < |ws| then [ws[idx] + " " + ws[idx + 1]] + Fuse(ws[idx + 2..])
      else [ws[idx]] + Fuse(ws[idx + 1..])
  {
    assert ws[idx..][0] == ws[idx];
    if IsFuser(ws[idx]) && idx + 1 < |ws| {
      assert ws[idx..][1] == ws[idx + 1] && ws[idx..][2..] == ws[idx + 2..];
    } else {
      assert ws[idx..][1..] == ws[idx + 1..];
    }
  }

  /** The loop of `opt_flag_list.parse_line` over the words of the command line. */
  method GlueArguments(cmd: seq<string>) returns (result: seq<string>)
    ensures result == Fuse(cmd)
  {
    var idx := 0;
    result := [];
    assert cmd[0..] == cmd;
    while idx < |cmd|
      invariant 0 <= idx <= |cmd|
      invariant result + Fuse(cmd[idx..]) == Fuse(cmd)
    {
      FuseStep(cmd, idx);
      var flag := cmd[idx];
      if IsFuser(flag) && idx + 1 < |cmd| {
        flag := flag + " " + cmd[idx + 1];
        idx := idx + 1;
      }
      ghost var rest := Fuse(cmd[idx + 1..]);
      assert result + ([flag] + rest) == (result + [flag]) + rest;
      result := result + [flag];
      idx := idx + 1;
    }
  }

  /** `opt_flag_list.parse_line`. */
  method ParseLine(cmdline: string) returns (result: seq<string>)
    ensures result == Fuse(Words(cmdline))
  {
    var cmd := Words(cmdline);
    result := GlueArguments(cmd);
  }

  // ------------------------------------------------------------------
  // nothing lost, nothing invented, nothing reordered

  /** The words of each token, concatenated. */
  function Pieces(ts: seq<string>): seq<string> {
    if ts == [] then [] else Split(ts[0], ' ') + Pieces(ts[1..])
  }

  /** Splitting the tokens at their spaces gives back the word list. */
  lemma {:induction false} FusePieces(ws: seq<string>)
    requires forall i :: 0 <= i < |ws| ==> ' ' !in ws[i]
    ensures Pieces(Fuse(ws)) == ws
  {
    if ws != [] {
      if IsFuser(ws[0]) && |ws| >= 2 {
        FusePieces(ws[2..]);
        SplitAfterPiece(ws[0], ws[1], ' ');
        SplitNoSep(ws[1], ' ');
        assert ws[0] + " " + ws[1] == ws[0] + [' '] + ws[1];
        assert [ws[0] + " " + ws[1]] + Fuse(ws[2..]) == Fuse(ws);
        assert ([ws[0] + " " + ws[1]] + Fuse(ws[2..]))[1..] == Fuse(ws[2..]);
        assert [ws[0], ws[1]] + ws[2..] == ws;
      } else {
        FusePieces(ws[1..]);
        SplitNoSep(ws[0], ' ');
        assert ([ws[0]] + Fuse(ws[1..]))[1..] == Fuse(ws[1..]);
        assert [ws[0]] + ws[1..] == ws;
      }
    }
  }

  /** Joining the tokens with single spaces gives the words joined with single spaces. */
  lemma {:induction false} FuseJoin(ws: seq<string>)
    ensures Join(Fuse(ws), " ") == Join(ws, " ")
  {
    if ws != [] {
      if IsFuser(ws[0]) && |ws| >= 2 {
        FuseJoin(ws[2..]);
        var rest := Fuse(ws[2..]);
        assert ([ws[0] + " " + ws[1]] + rest)[1..] == rest;
        assert ws[1..][1..] == ws[2..];
        if |ws| == 2 {
          assert Fuse(ws[2..]) == [];
        }
      } else {
        FuseJoin(ws[1..]);
        var rest := Fuse(ws[1..]);
        assert ([ws[0]] + rest)[1..] == rest;
        if |ws| == 1 {
          assert rest == [];
        } else {
          assert rest != [] by {
            assert ws[1..] != [];
          }
        }
      }
    }
  }

  lemma FuseEmpty(ws: seq<string>)
    ensures Fuse(ws) == [] <==> ws == []
  {
  }

  /** A token holds one word, or a glued option and its argument. */
  lemma {:induction false} FuseTokenShape(ws: seq<string>, k: nat)
    requires forall i :: 0 <= i < |ws| ==> ' ' !in ws[i]
    requires k < |Fuse(ws)|
    ensures var p := Split(Fuse(ws)[k], ' ');
      |p| == 1 || (|p| == 2 && IsFuser(p[0]))
  {
    if IsFuser(ws[0]) && |ws| >= 2 {
      if k == 0 {
        SplitAfterPiece(ws[0], ws[1], ' ');
        SplitNoSep(ws[1], ' ');
        assert ws[0] + " " + ws[1] == ws[0] + [' '] + ws[1];
      } else {
        FuseTokenShape(ws[2..], k - 1);
      }
    } else {
      if k == 0 {
        SplitNoSep(ws[0], ' ');
      } else {
        FuseTokenShape(ws[1..], k - 1);
      }
    }
  }

  /** A glued token is never itself an option that takes an argument. */
  lemma FusedNotFuser(a: string, b: string)
    ensures !IsFuser(a + " " + b)
  {
    var t := a + " " + b;
    assert t[|a|] == ' ';
    assert ' ' !in "--param" && ' ' !in "-mllvm" && ' ' !in "-Xclang";
  }

  /** An option that takes an argument stays alone only at the very end. */
  lemma {:induction false} FuseLoneFuserLast(ws: seq<string>, k: nat)
    requires k < |Fuse(ws)| && IsFuser(Fuse(ws)[k])
    ensures k == |Fuse(ws)| - 1
  {
    if IsFuser(ws[0]) && |ws| >= 2 {
      if k == 0 {
        FusedNotFuser(ws[0], ws[1]);
        assert false;
      }
      FuseLoneFuserLast(ws[2..], k - 1);
    } else {
      if k == 0 {
        FuseEmpty(ws[1..]);
      } else {
        FuseLoneFuserLast(ws[1..], k - 1);
      }
    }
  }

  /** `parse_line` keeps every word, in order, and its space-joined form. */
  lemma ParseLinePreserves(cmdline: string)
    ensures Pieces(Fuse(Words(cmdline))) == Words(cmdline)
    ensures Join(Fuse(Words(cmdline)), " ") == Join(Words(cmdline), " ")
  {
    WordsShape(cmdline);
    FusePieces(Words(cmdline));
    FuseJoin(Words(cmdline));
  }
}
