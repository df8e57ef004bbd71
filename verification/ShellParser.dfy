/**
 The shell's tokeniser: a command line is split at its spaces into at most 16 arguments of at
 most 31 characters, stored in place in a table of 16 rows of 32 characters.
 */
module ShellParser {
  import opened Egos

  /** What has been read: the words ended by a space, and the word still open. */
  datatype Split = Split(done: seq<string>, open: string) {
    function Words(): seq<string> { if open == "" then done else done + [open] }

    function Next(c: char): Split {
      if c != ' ' then Split(done, open + [c])
      else if open != "" then Split(done + [open], "")
      else this
    }
  }

  function SplitLine(s: string): Split {
    if s == "" then Split([], "") else SplitLine(s[..|s| - 1]).Next(s[|s| - 1])
  }

  // ---------- the words are the maximal runs without spaces ----------

  predicate Word(w: string) { w != "" && ' ' !in w }

  /** gaps[0] spaces, ws[0], gaps[1] spaces, ws[1], ..., gaps[|ws|] spaces. */
  function Weave(gaps: seq<nat>, ws: seq<string>): string
    requires |gaps| == |ws| + 1
  {
    if ws == [] then Spaces(gaps[0])
    else Weave(gaps[..|ws|], ws[..|ws| - 1]) + ws[|ws| - 1] + Spaces(gaps[|ws|])
  }

  /** Words are not empty and hold no space, and neighbours are separated by a space. */
  ghost predicate Woven(gaps: seq<nat>, ws: seq<string>) {
    && |gaps| == |ws| + 1
    && (forall i :: 0 <= i < |ws| ==> Word(ws[i]))
    && (forall i :: 0 < i < |ws| ==> gaps[i] > 0)
  }

  lemma SplitNext(s: string, c: char)
    ensures SplitLine(s + [c]) == SplitLine(s).Next(c)
  {
    assert (s + [c])[..|s|] == s;
  }

  lemma {:induction false} SplitSpaces(s: string, n: nat)
    ensures SplitLine(s + Spaces(n)) == if n == 0 then SplitLine(s) else Split(SplitLine(s).Words(), "")
  {
    hide SplitLine;
    if n == 0 {
      assert s + "" == s;
    } else {
      SplitSpaces(s, n - 1);
      SplitNext(s + Spaces(n - 1), ' ');
      assert s + Spaces(n) == s + Spaces(n - 1) + " ";
    }
  }

  lemma {:induction false} SplitWord(s: string, w: string)
    requires ' ' !in w
    ensures SplitLine(s + w) == SplitLine(s).(open := SplitLine(s).open + w)
  {
    hide SplitLine;
    if w == "" {
      assert s + w == s && SplitLine(s).open + w == SplitLine(s).open;
    } else {
      var v, c := w[..|w| - 1], w[|w| - 1];
      SplitWord(s, v);
      SplitNext(s + v, c);
      assert s + w == s + v + [c] && SplitLine(s).open + w == SplitLine(s).open + v + [c];
    }
  }

  lemma OpenWord(before: Split, ws: seq<string>, w: string)
    requires before.open == "" && before.Words() == ws
    ensures before.(open := before.open + w).Words() == if w == "" then ws else ws + [w]
  {
    assert "" + w == w;
  }

  /** Splitting finds the words that were woven in. */
  lemma {:induction false} SplitOfWeave(gaps: seq<nat>, ws: seq<string>)
    requires Woven(gaps, ws)
    ensures SplitLine(Weave(gaps, ws)).Words() == ws
    ensures SplitLine(Weave(gaps, ws)).open == "" <==> ws == [] || gaps[|ws|] > 0
    decreases |ws|
  {
    hide SplitLine, Spaces, Word;
    if ws == [] {
      SplitNothing(gaps[0]);
    } else {
      var n := |ws|;
      SplitOfWeave(gaps[..n], ws[..n - 1]);
      assert Word(ws[n - 1]);
      SplitWordAndGap(Weave(gaps[..n], ws[..n - 1]), ws[..n - 1], ws[n - 1], gaps[n]);
      assert ws == ws[..n - 1] + [ws[n - 1]];
    }
  }

  lemma SplitNothing(gap: nat)
    ensures SplitLine(Spaces(gap)) == Split([], "")
  {
    SplitSpaces("", gap);
    assert "" + Spaces(gap) == Spaces(gap);
  }

  lemma SplitWordAndGap(front: string, ws: seq<string>, w: string, gap: nat)
    requires SplitLine(front).open == "" && SplitLine(front).Words() == ws && Word(w)
    ensures SplitLine(front + w + Spaces(gap)).Words() == ws + [w]
    ensures SplitLine(front + w + Spaces(gap)).open == "" <==> gap > 0
  {
    hide SplitLine, Spaces;
    SplitWord(front, w);
    SplitSpaces(front + w, gap);
    OpenWord(SplitLine(front), ws, w);
  }

  /** What is known of the gaps while a line is read. */
  ghost predicate Reads(st: Split, gaps: seq<nat>, s: string) {
    && Woven(gaps, st.Words())
    && Weave(gaps, st.Words()) == s
    && (st.open != "" ==> gaps[|gaps| - 1] == 0)
    && (st.open == "" && st.done != [] ==> gaps[|gaps| - 1] > 0)
  }

  lemma ReadSpace(st: Split, gaps: seq<nat>, s: string) returns (after: seq<nat>)
    requires Reads(st, gaps, s)
    ensures Reads(st.Next(' '), after, s + " ")
  {
    var ws := st.Words();
    var n := |ws|;
    var k := gaps[n] + 1;
    after := gaps[n := k];
    assert st.Next(' ').Words() == ws;
    assert Spaces(k) == Spaces(gaps[n]) + " ";
    if ws != [] {
      var front := Weave(gaps[..n], ws[..n - 1]) + ws[n - 1];
      assert after[..n] == gaps[..n];
      assert front + (Spaces(gaps[n]) + " ") == front + Spaces(gaps[n]) + " ";
    }
  }

  lemma ReadNewWord(st: Split, gaps: seq<nat>, s: string, c: char) returns (after: seq<nat>)
    requires Reads(st, gaps, s) && c != ' ' && st.open == ""
    ensures Reads(st.Next(c), after, s + [c])
  {
    var ws := st.Words();
    var n := |ws|;
    after := gaps + [0];
    OpenWord(st, ws, [c]);
    var ws' := ws + [[c]];
    assert after[..n + 1] == gaps && ws'[..n] == ws;
    assert Weave(after, ws') == Weave(gaps, ws) + [c] + "";
    assert Word(ws'[n]);
  }

  lemma ReadOpenWord(st: Split, gaps: seq<nat>, s: string, c: char)
    requires Reads(st, gaps, s) && c != ' ' && st.open != ""
    ensures Reads(st.Next(c), gaps, s + [c])
  {
    var ws, ws' := st.Words(), st.Next(c).Words();
    var n := |ws|;
    assert ws' == st.done + [st.open + [c]] && ws == st.done + [st.open];
    assert ws'[..n - 1] == ws[..n - 1] == st.done;
    var front := Weave(gaps[..n], st.done);
    assert Weave(gaps, ws) == front + st.open + Spaces(0) == front + st.open;
    assert Weave(gaps, ws') == front + (st.open + [c]) + Spaces(0) == front + st.open + [c];
    assert Word(st.open) by { assert ws[n - 1] == st.open; }
    assert forall i :: 0 <= i < n - 1 ==> ws'[i] == ws[i];
    assert Word(ws'[n - 1]);
  }

  /** Every line is woven from its words. */
  lemma {:induction false} WeaveOfSplit(s: string) returns (gaps: seq<nat>)
    ensures Woven(gaps, SplitLine(s).Words()) && Weave(gaps, SplitLine(s).Words()) == s
    ensures Reads(SplitLine(s), gaps, s)
  {
    if s == "" {
      gaps := [0];
    } else {
      hide Woven, Weave;
      var t, c := s[..|s| - 1], s[|s| - 1];
      assert s == t + [c];
      gaps := WeaveOfSplit(t);
      if c == ' ' {
        gaps := ReadSpace(SplitLine(t), gaps, t);
      } else if SplitLine(t).open == "" {
        gaps := ReadNewWord(SplitLine(t), gaps, t, c);
      } else {
        ReadOpenWord(SplitLine(t), gaps, t, c);
      }
    }
  }

  // ---------- the tokeniser ----------

  /** The line can be stored: no word is too long, and fewer than 16 words are followed by a space. */
  predicate Fits(s: string) {
    && |SplitLine(s).done| < CMD_NARGS
    && (forall w :: w in SplitLine(s).Words() ==> |w| < CMD_ARG_LEN)
  }

  /** In terms of the words and gaps: the line fits iff every word has fewer than 32 characters and
      there are fewer than 16 words, or 16 of which the last ends the line. */
  lemma FitsIff(gaps: seq<nat>, ws: seq<string>)
    requires Woven(gaps, ws)
    ensures Fits(Weave(gaps, ws)) <==>
      ((forall w :: w in ws ==> |w| < 32) && (|ws| < 16 || (|ws| == 16 && gaps[|ws|] == 0)))
  {
    hide SplitLine, Weave, Spaces;
    SplitOfWeave(gaps, ws);
  }

  /** A word that is too long, or too many words, stay so as the line goes on. */
  lemma {:induction false} OverflowStays(s: string, i: nat)
    requires i <= |s|
    requires |SplitLine(s[..i]).open| >= CMD_ARG_LEN || |SplitLine(s[..i]).done| >= CMD_NARGS
      || exists w :: w in SplitLine(s[..i]).done && |w| >= CMD_ARG_LEN
    ensures !Fits(s)
    decreases |s| - i
  {
    if i == |s| {
      assert s[..i] == s;
      if |SplitLine(s).open| >= CMD_ARG_LEN { assert SplitLine(s).open in SplitLine(s).Words(); }
    } else {
      assert s[..i + 1][..i] == s[..i];
      var before, after := SplitLine(s[..i]), SplitLine(s[..i + 1]);
      if |before.open| >= CMD_ARG_LEN && s[i] == ' ' { assert before.open in after.done; }
      if w :| w in before.done && |w| >= CMD_ARG_LEN { assert w in after.done; }
      OverflowStays(s, i + 1);
    }
  }

  function WordAt(ws: seq<string>, i: nat): string { if i < |ws| then ws[i] else "" }

  lemma SplitStart(s: string)
    ensures SplitLine(s[..0]) == Split([], "")
  {
  }

  lemma SplitStep(s: string, i: nat)
    requires i < |s|
    ensures SplitLine(s[..i + 1]) == SplitLine(s[..i]).Next(s[i])
  {
    assert s[..i + 1] == s[..i] + [s[i]];
    SplitNext(s[..i], s[i]);
  }

  class Request {
    const argv: array2<char>
    var argc: nat

    constructor ()
      ensures argv.Length0 == CMD_NARGS && argv.Length1 == CMD_ARG_LEN && fresh(argv)
    {
      argv := new char[CMD_NARGS, CMD_ARG_LEN];
      argc := 0;
    }

    /** Row i holds word w and is filled up with NULs. */
    ghost predicate Row(i: nat, w: string)
      requires argv.Length0 == CMD_NARGS && argv.Length1 == CMD_ARG_LEN && i < CMD_NARGS
      reads argv
    {
      |w| <= CMD_ARG_LEN && forall k :: 0 <= k < CMD_ARG_LEN ==> argv[i, k] == if k < |w| then w[k] else NUL
    }

    /** The rows hold what has been read: the ended words, then the open one, then nothing. */
    ghost predicate Holds(st: Split)
      requires argv.Length0 == CMD_NARGS && argv.Length1 == CMD_ARG_LEN
      reads argv
    {
      && |st.done| < CMD_NARGS
      && |st.open| < CMD_ARG_LEN
      && (forall j: nat :: j < |st.done| ==> |st.done[j]| < CMD_ARG_LEN && Row(j, st.done[j]))
      && Row(|st.done|, st.open)
      && (forall j: nat :: |st.done| < j < CMD_NARGS ==> Row(j, ""))
    }

    method Clear()
      requires argv.Length0 == CMD_NARGS && argv.Length1 == CMD_ARG_LEN
      modifies argv
      ensures Holds(Split([], ""))
    {
      forall i, k | 0 <= i < CMD_NARGS && 0 <= k < CMD_ARG_LEN { argv[i, k] := NUL; }
    }

    /** Stores one character behind the open word. */
    method Append(ghost st: Split, nargs: nat, idx: nat, c: char)
      requires argv.Length0 == CMD_NARGS && argv.Length1 == CMD_ARG_LEN
      requires Holds(st) && nargs == |st.done| && idx == |st.open|
      modifies argv
      ensures idx + 1 < CMD_ARG_LEN ==> Holds(Split(st.done, st.open + [c]))
    {
      argv[nargs, idx] := c;
      forall j: nat | j < nargs ensures Row(j, st.done[j]) {
        assert old(Row(j, st.done[j]));
      }
      forall j: nat | nargs < j < CMD_NARGS ensures Row(j, "") {
        assert old(Row(j, ""));
      }
      assert Row(nargs, st.open + [c]);
    }

    /** Stores the NUL behind the open word, which ends it. */
    method EndWord(ghost st: Split, nargs: nat, idx: nat)
      requires argv.Length0 == CMD_NARGS && argv.Length1 == CMD_ARG_LEN
      requires Holds(st) && nargs == |st.done| && idx == |st.open|
      modifies argv
      ensures nargs + 1 < CMD_NARGS ==> Holds(Split(st.done + [st.open], ""))
    {
      argv[nargs, idx] := NUL;
      assert old(Row(nargs, st.open));
      assert Holds(st);
    }

    lemma AllRead(s: string)
      requires argv.Length0 == CMD_NARGS && argv.Length1 == CMD_ARG_LEN
      requires Holds(SplitLine(s))
      ensures Fits(s) && |SplitLine(s).Words()| <= CMD_NARGS
      ensures forall i: nat :: i < CMD_NARGS ==>
        Row(i, WordAt(SplitLine(s).Words(), i))
    {
      hide SplitLine, Row;
    }

    /** parse_request: on success the first argc rows are the words of the line in order, each ended
        by a NUL, and the other rows are empty; it fails exactly when the line does not fit. */
    method Parse(buf: string) returns (ok: bool)
      requires argv.Length0 == CMD_NARGS && argv.Length1 == CMD_ARG_LEN
      modifies this, argv
      ensures ok <==> Fits(buf)
      ensures ok ==> argc == |SplitLine(buf).Words()| <= CMD_NARGS
      ensures ok ==> forall i: nat :: i < CMD_NARGS ==>
        Row(i, WordAt(SplitLine(buf).Words(), i))
    {
      hide SplitLine, Row, Holds, Fits;
      Clear();
      var idx, nargs, i := 0, 0, 0;
      SplitStart(buf);
      while i < |buf|
        invariant 0 <= i <= |buf| && nargs < CMD_NARGS && idx < CMD_ARG_LEN
        invariant nargs == |SplitLine(buf[..i]).done| && idx == |SplitLine(buf[..i]).open|
        invariant Holds(SplitLine(buf[..i]))
      {
        ghost var st := SplitLine(buf[..i]);
        SplitStep(buf, i);
        if buf[i] != ' ' {
          Append(st, nargs, idx, buf[i]);
          idx := idx + 1;
          if idx >= CMD_ARG_LEN {
            OverflowStays(buf, i + 1);
            return false;
          }
        } else if idx != 0 {
          EndWord(st, nargs, idx);
          idx := 0;
          nargs := nargs + 1;
          if nargs >= CMD_NARGS {
            OverflowStays(buf, i + 1);
            return false;
          }
        }
        i := i + 1;
      }
      assert buf[..|buf|] == buf;
      argc := if idx != 0 then nargs + 1 else nargs;
      AllRead(buf);
      ok := true;
    }
  }
}
