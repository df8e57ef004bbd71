/**
 Directories are text: one entry per file, printed as the name, the inode number in a field of
 width 4, and a space.  Looking a name up is a search through that text; this module says what the
 search finds.
 */
module Directory {
  import opened Egos

  // ---------- numbers as text ----------

  predicate IsDigit(c: char) { '0' <= c <= '9' }

  predicate IsSpace(c: char) { c == ' ' || 9 <= c as int <= 13 }

  function Dec(n: nat): (r: string)
    ensures r != "" && forall i :: 0 <= i < |r| ==> IsDigit(r[i])
  {
    if n < 10 then [(n + '0' as int) as char] else Dec(n / 10) + [(n % 10 + '0' as int) as char]
  }

  /** The digits at the front of s, read after digits worth acc. */
  function Digits(s: string, acc: nat): nat {
    if s == "" || !IsDigit(s[0]) then acc else Digits(s[1..], 10 * acc + (s[0] as int - '0' as int))
  }

  function Atoi(s: string): int {
    if s == "" then 0
    else if IsSpace(s[0]) then Atoi(s[1..])
    else if s[0] == '-' then 0 - Digits(s[1..], 0)
    else if s[0] == '+' then Digits(s[1..], 0)
    else Digits(s, 0)
  }

  lemma {:induction false} DigitsConcat(a: string, b: string, acc: nat)
    requires forall i :: 0 <= i < |a| ==> IsDigit(a[i])
    ensures Digits(a + b, acc) == Digits(b, Digits(a, acc))
  {
    if a == "" {
      assert a + b == b;
    } else {
      assert (a + b)[1..] == a[1..] + b;
      DigitsConcat(a[1..], b, 10 * acc + (a[0] as int - '0' as int));
    }
  }

  lemma {:induction false} DecValue(n: nat)
    ensures Digits(Dec(n), 0) == n
  {
    if n < 10 {
      assert Dec(n)[1..] == "";
    } else {
      var d := (n % 10 + '0' as int) as char;
      DecValue(n / 10);
      DigitsConcat(Dec(n / 10), [d], 0);
      assert [d][1..] == "";
    }
  }

  /** Printing and reading back a number. */
  lemma AtoiOfDec(n: nat, rest: string)
    ensures Atoi(Dec(n) + " " + rest) == n
  {
    var t := Dec(n) + (" " + rest);
    assert t == Dec(n) + " " + rest;
    assert IsDigit(t[0]) by { assert t[0] == Dec(n)[0]; }
    DigitsConcat(Dec(n), " " + rest, 0);
    DecValue(n);
  }

  lemma {:induction false} SpacesFront(n: nat)
    requires n > 0
    ensures Spaces(n) == " " + Spaces(n - 1)
  {
    if n > 1 { SpacesFront(n - 1); }
  }

  lemma {:induction false} AtoiSkips(p: nat, s: string)
    ensures Atoi(Spaces(p) + s) == Atoi(s)
  {
    if p == 0 {
      assert Spaces(p) + s == s;
    } else {
      SpacesFront(p);
      assert (Spaces(p) + s)[1..] == Spaces(p - 1) + s;
      AtoiSkips(p - 1, s);
    }
  }

  lemma {:induction false} DecWidth(n: nat)
    ensures |Dec(n)| <= 3 <==> n < 1000
    ensures |Dec(n)| <= 2 <==> n < 100
    ensures |Dec(n)| <= 1 <==> n < 10
  {
    if n >= 10 { DecWidth(n / 10); }
  }

  // ---------- the printer ----------

  datatype Entry = Entry(name: string, ino: nat)

  predicate SpaceFree(s: string) { forall i :: 0 <= i < |s| ==> s[i] != ' ' }

  predicate Name(s: string) {
    && s != ""
    && SpaceFree(s)
    && NUL !in s
    && exists i :: 0 <= i < |s| && !IsDigit(s[i])
  }

  /** The number right-aligned in a field of width 4. */
  function Field(n: nat): string {
    var d := Dec(n);
    if |d| < 4 then Spaces(4 - |d|) + d else d
  }

  function Print(e: Entry): string { e.name + Field(e.ino) + " " }

  function PrintDir(es: seq<Entry>): string {
    if es == [] then "" else Print(es[0]) + PrintDir(es[1..])
  }

  /** Whether the entry's number leaves room for a space between it and the name. */
  predicate Narrow(e: Entry) { e.ino < 1000 }

  // ---------- the search ----------

  /** The name stands at position i of the text as a whole word. */
  predicate MatchAt(text: string, name: string, i: nat) {
    && i + |name| < |text|
    && text[i..i + |name|] == name
    && text[i + |name|] == ' '
    && (i == 0 || text[i - 1] == ' ')
  }

  ghost predicate FirstMatch(text: string, name: string, i: nat) {
    MatchAt(text, name, i) && forall j: nat :: j < i ==> !MatchAt(text, name, j)
  }

  /** The number behind a match at i. */
  function Behind(text: string, name: string, i: nat): int {
    if i + |name| <= |text| then Atoi(text[i + |name|..]) else 0
  }

  /** What a lookup may return: the number behind the first match, or -1 if there is none. */
  ghost predicate Answer(text: string, name: string, r: int) {
    if exists i: nat :: MatchAt(text, name, i)
    then exists i: nat :: FirstMatch(text, name, i) && r == Behind(text, name, i)
    else r == -1
  }

  // ---------- where a name matches ----------

  lemma WordStep(w: string, rest: string, x: string, i: nat)
    requires SpaceFree(w) && SpaceFree(x) && x != ""
    ensures MatchAt(w + " " + rest, x, i) <==>
      ((i == 0 && x == w) || (i > |w| && MatchAt(rest, x, i - |w| - 1)))
  {
    var t := w + " " + rest;
    var n := |x|;
    assert n < |w| ==> t[n] == w[n];
    assert |w| < n <= |t| ==> t[..n][|w|] == ' ';
    assert n == |w| ==> t[..n] == w;
    if 0 < i <= |w| {
      assert t[i - 1] == w[i - 1];
    }
    if i > |w| && i + n <= |t| {
      var j := i - |w| - 1;
      assert t[i..i + n] == rest[j..j + n];
    }
  }

  lemma {:induction false} SpacesStep(p: nat, rest: string, x: string, i: nat)
    requires SpaceFree(x) && x != ""
    ensures MatchAt(Spaces(p) + rest, x, i) <==> i >= p && MatchAt(rest, x, i - p)
  {
    hide MatchAt;
    if p == 0 {
      assert Spaces(p) + rest == rest;
    } else {
      SpacesFront(p);
      assert Spaces(p) + rest == "" + " " + (Spaces(p - 1) + rest);
      WordStep("", Spaces(p - 1) + rest, x, i);
      if i > 0 { SpacesStep(p - 1, rest, x, i - 1); }
    }
  }

  /** The first word of a printed entry: a wide number runs into the name. */
  function FirstWord(e: Entry): string { if Narrow(e) then e.name else e.name + Dec(e.ino) }

  /** The name is that of another entry with its wide number behind it. */
  predicate Clashes(e: Entry, x: string) { !Narrow(e) && x == FirstWord(e) }

  lemma DecIsNoName(n: nat, x: string)
    requires Name(x)
    ensures SpaceFree(Dec(n)) && x != Dec(n)
  {
    assert !IsDigit(' ');
  }

  /** In a printed entry followed by more text, a name matches at the front iff it is the entry's
      first word, and otherwise only in the text behind the entry. */
  lemma EntryStep(e: Entry, rest: string, x: string, i: nat)
    requires Name(e.name) && Name(x)
    ensures MatchAt(Print(e) + rest, x, i) <==>
      ((i == 0 && x == FirstWord(e)) || (i >= |Print(e)| && MatchAt(rest, x, i - |Print(e)|)))
  {
    hide MatchAt, Name;
    var d := Dec(e.ino);
    DecWidth(e.ino);
    DecIsNoName(e.ino, x);
    assert SpaceFree(x) && x != "" && SpaceFree(e.name) by { NameIsSpaceFree(x); NameIsSpaceFree(e.name); }
    if Narrow(e) {
      var p := 3 - |d|;
      var tail := d + " " + rest;
      assert Print(e) + rest == e.name + " " + (Spaces(p) + tail) by { SpacesFront(p + 1); }
      WordStep(e.name, Spaces(p) + tail, x, i);
      if i > |e.name| {
        var j := i - |e.name| - 1;
        SpacesStep(p, tail, x, j);
        if j >= p { WordStep(d, rest, x, j - p); }
      }
    } else {
      assert Print(e) + rest == e.name + d + " " + rest;
      WordStep(e.name + d, rest, x, i);
    }
  }

  lemma NameIsSpaceFree(x: string)
    requires Name(x)
    ensures SpaceFree(x) && x != ""
  {
  }

  /** Behind the first word comes the entry's number, or, if that is part of the word, whatever
      number the text behind the entry starts with. */
  lemma NumberBehind(e: Entry, rest: string)
    ensures Behind(Print(e) + rest, FirstWord(e), 0) == if Narrow(e) then e.ino else Atoi(rest)
  {
    hide Atoi, Digits;
    DecWidth(e.ino);
    var d := Dec(e.ino);
    var t := Print(e) + rest;
    if Narrow(e) {
      AtoiOfDec(e.ino, rest);
      AtoiSkips(4 - |d|, d + " " + rest);
      assert t[|e.name|..] == Spaces(4 - |d|) + (d + " " + rest);
    } else {
      AtoiSkips(1, rest);
      assert t[|FirstWord(e)|..] == Spaces(1) + rest;
    }
  }

  /** Text without a match in front of the rest does not change the answer. */
  lemma AnswerBehind(front: string, rest: string, x: string, r: int)
    requires forall i: nat :: MatchAt(front + rest, x, i) <==> i >= |front| && MatchAt(rest, x, i - |front|)
    requires Answer(front + rest, x, r)
    ensures Answer(rest, x, r)
  {
    hide MatchAt;
    var t, n := front + rest, |front|;
    forall j: nat | MatchAt(rest, x, j) ensures exists i: nat :: MatchAt(t, x, i) {
      assert MatchAt(t, x, n + j);
    }
    if i: nat :| FirstMatch(t, x, i) && r == Behind(t, x, i) {
      var j := i - n;
      forall k: nat | k < j ensures !MatchAt(rest, x, k) {
        assert !MatchAt(t, x, n + k);
      }
      assert FirstMatch(rest, x, j);
      MatchFits(rest, x, j);
      assert t[i + |x|..] == rest[j + |x|..];
    }
  }

  lemma MatchFits(t: string, x: string, i: nat)
    requires MatchAt(t, x, i)
    ensures i + |x| < |t|
  {
  }

  /** The directory as a list: the first entry whose first word is the name. */
  function Find(es: seq<Entry>, x: string): int {
    if es == [] then -1
    else if x == FirstWord(es[0]) then (if Narrow(es[0]) then es[0].ino else Atoi(PrintDir(es[1..])))
    else Find(es[1..], x)
  }

  /** Searching the printed text finds what searching the list finds. */
  lemma {:induction false} LookupPrinted(es: seq<Entry>, x: string, r: int)
    requires Name(x) && Answer(PrintDir(es), x, r)
    requires forall e :: e in es ==> Name(e.name)
    ensures r == Find(es, x)
  {
    hide MatchAt, Name, Print, FirstWord, Behind, Answer, Atoi;
    if es == [] {
      NothingInEmpty(x, r);
    } else {
      var e, rest := es[0], PrintDir(es[1..]);
      if x == FirstWord(e) {
        EntryStep(e, rest, x, 0);
        AnswerInFront(Print(e) + rest, x, r);
        NumberBehind(e, rest);
      } else {
        forall i: nat
          ensures MatchAt(Print(e) + rest, x, i) <==> i >= |Print(e)| && MatchAt(rest, x, i - |Print(e)|)
        {
          EntryStep(e, rest, x, i);
        }
        AnswerBehind(Print(e), rest, x, r);
        LookupPrinted(es[1..], x, r);
      }
    }
  }

  /** Every text has an answer for every name. */
  lemma AnswerExists(text: string, x: string) returns (r: int)
    ensures Answer(text, x, r)
  {
    hide MatchAt, Behind;
    if i: nat :| MatchAt(text, x, i) {
      var first := LeastMatch(text, x, i);
      r := Behind(text, x, first);
    } else {
      r := -1;
    }
  }

  lemma {:induction false} LeastMatch(text: string, x: string, i: nat) returns (first: nat)
    requires MatchAt(text, x, i)
    ensures FirstMatch(text, x, first)
  {
    hide MatchAt;
    if j: nat :| j < i && MatchAt(text, x, j) {
      first := LeastMatch(text, x, j);
    } else {
      first := i;
    }
  }

  lemma NothingInEmpty(x: string, r: int)
    requires Answer("", x, r)
    ensures r == -1
  {
  }

  lemma AnswerInFront(t: string, x: string, r: int)
    requires MatchAt(t, x, 0) && Answer(t, x, r)
    ensures r == Behind(t, x, 0)
  {
  }

  ghost predicate Distinct(es: seq<Entry>) {
    forall j, k :: 0 <= j < k < |es| ==> es[j].name != es[k].name
  }

  lemma {:induction false} FindListed(es: seq<Entry>, k: nat)
    requires k < |es| && Distinct(es) && forall e :: e in es ==> !Clashes(e, es[k].name)
    ensures Find(es, es[k].name) == if Narrow(es[k]) then es[k].ino else -1
  {
    hide Atoi, PrintDir;
    assert es[0] in es;
    if k > 0 {
      FindListed(es[1..], k - 1);
    } else {
      LongerThanName(es[0]);
      FindUnlisted(es[1..], es[0].name);
    }
  }

  lemma LongerThanName(e: Entry)
    ensures !Narrow(e) ==> |FirstWord(e)| > |e.name|
  {
  }

  lemma {:induction false} FindUnlisted(es: seq<Entry>, x: string)
    requires forall e :: e in es ==> e.name != x && !Clashes(e, x)
    ensures Find(es, x) == -1
  {
    hide Atoi, PrintDir;
    if es != [] {
      assert es[0] in es;
      FindUnlisted(es[1..], x);
    }
  }

  /** The round trip: with numbers below 1000, looking up a name in the printed directory gives the
      number of the entry with that name, and -1 for every other name. */
  lemma TextRoundTrip(es: seq<Entry>, x: string, r: int)
    requires Name(x) && Answer(PrintDir(es), x, r)
    requires Distinct(es) && forall e :: e in es ==> Name(e.name) && Narrow(e)
    ensures forall k :: 0 <= k < |es| && es[k].name == x ==> r == es[k].ino
    ensures (forall e :: e in es ==> e.name != x) ==> r == -1
  {
    hide Name, Answer, PrintDir;
    LookupPrinted(es, x, r);
    forall k | 0 <= k < |es| && es[k].name == x ensures r == es[k].ino { FindListed(es, k); }
    if forall e :: e in es ==> e.name != x { FindUnlisted(es, x); }
  }

  /** Unless another entry's name and wide number together spell it, a listed name is looked up right
      iff its number is below 1000; otherwise it is not found. */
  lemma FoundIffNarrow(es: seq<Entry>, k: nat, r: int)
    requires k < |es| && Distinct(es) && forall e :: e in es ==> Name(e.name)
    requires forall e :: e in es ==> !Clashes(e, es[k].name)
    requires Answer(PrintDir(es), es[k].name, r)
    ensures r == es[k].ino <==> es[k].ino < 1000
    ensures es[k].ino >= 1000 ==> r == -1
  {
    hide Name, Answer, PrintDir, Clashes;
    LookupPrinted(es, es[k].name, r);
    FindListed(es, k);
  }

  /** A wide number can also spoil the lookup of another name, whose own number is narrow. */
  lemma WideNumberHidesOther() returns (es: seq<Entry>, r: int)
    ensures es == [Entry("a", 1000), Entry("a1000", 5)] && Distinct(es) && Name("a") && Name("a1000")
    ensures Answer(PrintDir(es), "a1000", r) && r == 0
  {
    hide PrintDir, Answer;
    es := [Entry("a", 1000), Entry("a1000", 5)];
    assert "a"[0] == 'a' && "a1000"[0] == 'a';
    r := AnswerExists(PrintDir(es), es[1].name);
    LookupPrinted(es, es[1].name, r);
    DecThousand();
    assert FirstWord(es[0]) == es[1].name;
    FrontOfName(es[1], "");
    assert es[1..] == [es[1]];
    SingleEntry(es[1]);
  }

  lemma SingleEntry(e: Entry)
    ensures PrintDir([e]) == Print(e) + ""
  {
    assert [e][1..] == [];
  }

  lemma DecThousand()
    ensures Dec(1000) == "1000"
  {
    assert Dec(1) == "1";
    assert Dec(10) == "10";
    assert Dec(100) == "100";
  }

  /** Text that starts with a letter holds no number at its front. */
  lemma FrontOfName(e: Entry, rest: string)
    requires e.name != "" && e.name[0] == 'a'
    ensures Atoi(Print(e) + rest) == 0
  {
    assert (Print(e) + rest)[0] == 'a';
  }

  /** Of the wide entries, the name of a shortest one is not spelled by any other. */
  lemma {:induction false} ShortestWide(es: seq<Entry>, k: nat) returns (m: nat)
    requires k < |es| && !Narrow(es[k])
    ensures m < |es| && !Narrow(es[m]) && forall e :: e in es ==> !Clashes(e, es[m].name)
    decreases |es[k].name|
  {
    if j :| 0 <= j < |es| && Clashes(es[j], es[k].name) {
      LongerThanName(es[j]);
      m := ShortestWide(es, j);
    } else {
      m := k;
    }
  }

  /** Every name of the directory is found in its text. */
  ghost predicate AllInText(es: seq<Entry>) {
    forall k: nat, r: int :: k < |es| && Answer(PrintDir(es), es[k].name, r) ==> r == es[k].ino
  }

  /** The limit of the print format: all listed names are found right in the text iff all numbers are
      below 1000. */
  lemma FormatIff(es: seq<Entry>)
    requires Distinct(es) && forall e :: e in es ==> Name(e.name)
    ensures AllInText(es) <==> forall e :: e in es ==> e.ino < 1000
  {
    hide Name, Answer, PrintDir, Clashes;
    if forall e :: e in es ==> e.ino < 1000 {
      forall k: nat, r: int | k < |es| && Answer(PrintDir(es), es[k].name, r)
        ensures r == es[k].ino
      {
        TextRoundTrip(es, es[k].name, r);
      }
    } else {
      var k :| 0 <= k < |es| && es[k].ino >= 1000;
      var m := ShortestWide(es, k);
      var r := AnswerExists(PrintDir(es), es[m].name);
      FoundIffNarrow(es, m, r);
      assert !AllInText(es);
    }
  }
}
