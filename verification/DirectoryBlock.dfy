/**
 Directory lookup as the system does it: the first block of the directory is read into a buffer of 512
 characters, and the text up to its NUL is searched.
 */
module DirectoryBlock {
  import opened Egos
  import opened Directory

  type Buffer = b: string | |b| == 512 witness Blank()

  function Blank(): (b: string)
    ensures |b| == 512
  {
    seq(512, _ => NUL)
  }

  /** The characters before the first NUL, all of them if there is none. */
  function Text(b: string): (t: string)
    ensures |t| <= |b| && t == b[..|t|] && NUL !in t
    ensures |t| < |b| ==> b[|t|] == NUL
  {
    if b == "" || b[0] == NUL then "" else [b[0]] + Text(b[1..])
  }

  /** strlen stays in the buffer. */
  predicate Terminated(b: Buffer) { |Text(b)| < BLOCK_SIZE }

  // ---------- dir_lookup ----------

  /** What a lookup does; None: it reads past the end of the buffer.  A name longer than the text makes
      the unsigned loop bound wrap, and the search goes on behind the NUL. */
  ghost predicate Result(b: Buffer, name: string, r: Option<int>) {
    if !Terminated(b) then r == None
    else if |name| <= |Text(b)| then r.Some? && Answer(Text(b), name, r.value)
    else if exists i: nat :: MatchAt(b, name, i)
    then exists i: nat :: FirstMatch(b, name, i) && r == Some(Behind(b, name, i))
    else r == None
  }

  /** dir_lookup, on the block it has read. */
  method DirLookup(buf: Buffer, name: string) returns (r: Option<int>)
    requires |name| < 0x8000_0000
    ensures Result(buf, name, r)
  {
    hide MatchAt, Atoi, Text;
    var len, n := |Text(buf)|, |name|;
    if len == BLOCK_SIZE { return None; }
    var bound := (len - n) % WORD_LIMIT;
    assert bound == if n <= len then len - n else WORD_LIMIT + len - n by { Wraps(len, n); }
    var i: nat := 0;
    while i < bound
      invariant i <= bound && (i == 0 || i + n <= BLOCK_SIZE)
      invariant forall j: nat :: j < i ==> !MatchAt(buf, name, j)
    {
      if i + n >= BLOCK_SIZE {
        NoLateMatch(buf, name, i);
        return None;
      }
      MatchTest(buf, name, i);
      if buf[i..i + n] == name && buf[i + n] == ' ' && (i == 0 || buf[i - 1] == ' ') {
        r := Some(Atoi(buf[i + n..]));
        InText(buf, name, i);
        return;
      }
      i := i + 1;
    }
    NoMatchInText(buf, name);
    return Some(-1);
  }

  lemma Wraps(len: nat, n: nat)
    requires len < BLOCK_SIZE && n < 0x8000_0000
    ensures (len - n) % WORD_LIMIT == if n <= len then len - n else WORD_LIMIT + len - n
  {
  }

  lemma MatchTest(b: string, name: string, i: nat)
    requires i + |name| < |b|
    ensures MatchAt(b, name, i) <==>
      b[i..i + |name|] == name && b[i + |name|] == ' ' && (i == 0 || b[i - 1] == ' ')
  {
  }

  lemma NoLateMatch(b: Buffer, name: string, i: nat)
    requires i + |name| >= BLOCK_SIZE
    ensures forall j: nat :: j >= i ==> !MatchAt(b, name, j)
  {
  }

  /** Matches that end in the text are matches of the text. */
  lemma TextMatches(b: string, name: string, i: nat)
    ensures MatchAt(Text(b), name, i) <==> i + |name| < |Text(b)| && MatchAt(b, name, i)
  {
    var t := Text(b);
    if i + |name| < |t| {
      assert t[i..i + |name|] == b[i..i + |name|];
      assert t[i + |name|] == b[i + |name|];
      assert i > 0 ==> t[i - 1] == b[i - 1];
    }
  }

  lemma InText(b: Buffer, name: string, i: nat)
    requires Terminated(b) && FirstMatch(b, name, i)
    requires |name| <= |Text(b)| ==> i + |name| < |Text(b)|
    ensures i + |name| < |b| && Result(b, name, Some(Atoi(b[i + |name|..])))
  {
    hide MatchAt, Text, Atoi;
    MatchFits(b, name, i);
    var t, n := Text(b), |name|;
    if n <= |t| {
      forall j: nat | j <= i ensures MatchAt(t, name, j) <==> MatchAt(b, name, j) { TextMatches(b, name, j); }
      assert FirstMatch(t, name, i);
      AtoiStops(t[i + n..], b[|t| + 1..]);
      assert b[i + n..] == t[i + n..] + [NUL] + b[|t| + 1..];
    }
  }

  lemma NoMatchInText(b: Buffer, name: string)
    requires Terminated(b) && |name| <= |Text(b)|
    requires forall j: nat :: j < |Text(b)| - |name| ==> !MatchAt(b, name, j)
    ensures Result(b, name, Some(-1))
  {
    hide MatchAt, Text;
    forall j: nat ensures !MatchAt(Text(b), name, j) { TextMatches(b, name, j); }
  }

  lemma {:induction false} DigitsStop(s: string, rest: string, acc: nat)
    ensures Digits(s + [NUL] + rest, acc) == Digits(s, acc)
  {
    var t := s + [NUL] + rest;
    if s != "" && IsDigit(s[0]) {
      assert t[1..] == s[1..] + [NUL] + rest;
      DigitsStop(s[1..], rest, 10 * acc + (s[0] as int - '0' as int));
    }
  }

  /** atoi stops at the NUL. */
  lemma {:induction false} AtoiStops(s: string, rest: string)
    ensures Atoi(s + [NUL] + rest) == Atoi(s)
  {
    var t := s + [NUL] + rest;
    DigitsStop(s, rest, 0);
    if s != "" {
      assert t[1..] == s[1..] + [NUL] + rest;
      DigitsStop(s[1..], rest, 0);
      if IsSpace(s[0]) { AtoiStops(s[1..], rest); }
    }
  }

  /** Every lookup has a result. */
  lemma ResultExists(b: Buffer, name: string) returns (r: Option<int>)
    ensures Result(b, name, r)
  {
    hide MatchAt, Text, Behind;
    if !Terminated(b) {
      r := None;
    } else if |name| <= |Text(b)| {
      var a := AnswerExists(Text(b), name);
      r := Some(a);
    } else if i: nat :| MatchAt(b, name, i) {
      var first := LeastMatch(b, name, i);
      r := Some(Behind(b, name, first));
    } else {
      r := None;
    }
  }

  // ---------- directories in a block ----------

  /** The buffer starts with the text and a NUL. */
  predicate HoldsText(b: Buffer, t: string) { |t| < BLOCK_SIZE && b[..|t|] == t && b[|t|] == NUL }

  lemma TextHeld(b: Buffer, t: string)
    requires HoldsText(b, t) && NUL !in t
    ensures Text(b) == t && Terminated(b)
  {
    hide Text;
    assert forall i :: 0 <= i < |t| ==> b[i] == t[i];
  }

  lemma {:induction false} PrintedHasNoNul(es: seq<Entry>)
    requires forall e :: e in es ==> NUL !in e.name
    ensures NUL !in PrintDir(es)
  {
    if es != [] {
      FieldHasNoNul(es[0].ino);
      assert es[0] in es;
      PrintedHasNoNul(es[1..]);
    }
  }

  lemma FieldHasNoNul(n: nat)
    ensures NUL !in Field(n)
  {
    assert !IsDigit(NUL);
    SpacesHaveNoNul(4);
    if |Dec(n)| < 4 { SpacesHaveNoNul(4 - |Dec(n)|); }
  }

  lemma {:induction false} SpacesHaveNoNul(n: nat)
    ensures NUL !in Spaces(n)
  {
    if n > 0 { SpacesHaveNoNul(n - 1); }
  }

  /** The buffer holds the listing of these entries, in a format that works. */
  ghost predicate Listing(b: Buffer, es: seq<Entry>) {
    HoldsText(b, PrintDir(es)) && Distinct(es) && forall e :: e in es ==> Name(e.name) && Narrow(e)
  }

  lemma NamesHaveNoNul(es: seq<Entry>)
    requires forall e :: e in es ==> Name(e.name)
    ensures forall e :: e in es ==> NUL !in e.name
  {
  }

  /** The round trip through a block: a lookup returns the number of each listed name and -1 for every
      other name that is no longer than the text. */
  lemma DirectoryRoundTrip(b: Buffer, es: seq<Entry>, x: string, r: Option<int>)
    requires Listing(b, es) && Name(x) && |x| <= |PrintDir(es)| && Result(b, x, r)
    ensures forall k :: 0 <= k < |es| && es[k].name == x ==> r == Some(es[k].ino as int)
    ensures (forall e :: e in es ==> e.name != x) ==> r == Some(-1)
    ensures r.Some? && (r.value < 0 <==> forall e :: e in es ==> e.name != x)
    ensures r.value >= 0 ==> Entry(x, r.value) in es
  {
    hide Name, Answer, PrintDir, Text;
    NamesHaveNoNul(es);
    PrintedHasNoNul(es);
    TextHeld(b, PrintDir(es));
    TextRoundTrip(es, x, r.value);
    if e :| e in es && e.name == x {
      var k :| 0 <= k < |es| && es[k] == e;
      assert r == Some(es[k].ino as int);
    }
  }

  /** A listed name is not longer than the text. */
  lemma {:induction false} ListedIsShort(es: seq<Entry>, k: nat)
    requires k < |es|
    ensures |es[k].name| < |PrintDir(es)|
  {
    if k > 0 { ListedIsShort(es[1..], k - 1); }
  }

  /** The first block of a directory file with this text, padded with NULs. */
  function BlockOf(t: string): (b: Buffer)
    ensures forall i :: 0 <= i < BLOCK_SIZE ==> b[i] == if i < |t| then t[i] else NUL
  {
    Padded(t, |Blank()|)
  }

  function Padded(t: string, n: nat): (b: string)
    ensures |b| == n && forall i :: 0 <= i < n ==> b[i] == if i < |t| then t[i] else NUL
  {
    seq(n, i requires i >= 0 => if i < |t| then t[i] else NUL)
  }

  lemma BlockHolds(t: string)
    requires NUL !in t
    ensures |t| < BLOCK_SIZE ==> HoldsText(BlockOf(t), t)
    ensures |t| >= BLOCK_SIZE ==> !Terminated(BlockOf(t))
  {
    hide BlockOf, Text;
    var b := BlockOf(t);
    if |t| < BLOCK_SIZE { assert b[..|t|] == t; }
  }

  /** Every name of the directory is looked up right in its block. */
  ghost predicate AllFound(es: seq<Entry>) {
    forall k: nat, r :: k < |es| && Result(BlockOf(PrintDir(es)), es[k].name, r) ==> r == Some(es[k].ino as int)
  }

  /** Exactly when lookup works: all listed names are found iff the listing and its NUL fit the block
      and all numbers fit the print format. */
  lemma RoundTripIff(es: seq<Entry>)
    requires Distinct(es) && forall e :: e in es ==> Name(e.name)
    ensures AllFound(es) <==> |PrintDir(es)| < BLOCK_SIZE && forall e :: e in es ==> e.ino < 1000
  {
    hide Name, PrintDir, Text, BlockOf, Answer;
    var t := PrintDir(es);
    var b := BlockOf(t);
    NamesHaveNoNul(es);
    PrintedHasNoNul(es);
    BlockHolds(t);
    if |t| >= BLOCK_SIZE {
      assert t != "";
      EmptyListing(es);
      var r := ResultExists(b, es[0].name);
      assert !AllFound(es);
    } else {
      TextHeld(b, t);
      forall k: nat | k < |es|
        ensures forall r :: Result(b, es[k].name, r) <==> r.Some? && Answer(t, es[k].name, r.value)
      {
        ListedIsShort(es, k);
      }
      FormatIff(es);
      FoundInBlock(es);
    }
  }

  lemma EmptyListing(es: seq<Entry>)
    ensures PrintDir(es) == "" <==> es == []
  {
  }

  lemma FoundInBlock(es: seq<Entry>)
    requires forall k: nat, r {:trigger Result(BlockOf(PrintDir(es)), es[k].name, r)} :: k < |es| ==>
      (Result(BlockOf(PrintDir(es)), es[k].name, r) <==> r.Some? && Answer(PrintDir(es), es[k].name, r.value))
    ensures AllFound(es) <==> AllInText(es)
  {
    hide Result, Answer, PrintDir, BlockOf;
    if AllFound(es) {
      forall k: nat, r: int | k < |es| && Answer(PrintDir(es), es[k].name, r) ensures r == es[k].ino {
        assert Result(BlockOf(PrintDir(es)), es[k].name, Some(r));
      }
    }
  }

  /** In a padded block a name longer than the text is never found: the search leaves the buffer. */
  lemma LongNameOverruns(t: string, x: string, r: Option<int>)
    requires NUL !in t && |x| > |t| && Result(BlockOf(t), x, r)
    ensures r == None
  {
    hide BlockOf, Text;
    var b := BlockOf(t);
    BlockHolds(t);
    if |t| < BLOCK_SIZE { TextHeld(b, t); }
    forall i: nat ensures !MatchAt(b, x, i) { }
  }

  /** A directory written by the disk builder, searched by dir_lookup. */
  method PrintAndLookup(es: seq<Entry>, x: string) returns (r: Option<int>)
    requires Name(x) && |x| < 0x8000_0000
    requires Distinct(es) && forall e :: e in es ==> Name(e.name) && Narrow(e)
    ensures r == None <==> |PrintDir(es)| >= BLOCK_SIZE || |x| > |PrintDir(es)|
    ensures r.Some? ==> forall k :: 0 <= k < |es| && es[k].name == x ==> r == Some(es[k].ino as int)
    ensures r.Some? && (forall e :: e in es ==> e.name != x) ==> r == Some(-1)
  {
    hide Name, Answer, PrintDir, Text, BlockOf;
    var b := BlockOf(PrintDir(es));
    r := DirLookup(b, x);
    NamesHaveNoNul(es);
    PrintedHasNoNul(es);
    BlockHolds(PrintDir(es));
    if |x| > |PrintDir(es)| {
      LongNameOverruns(PrintDir(es), x, r);
    } else if |PrintDir(es)| < BLOCK_SIZE {
      DirectoryRoundTrip(b, es, x, r);
    }
  }

  // ---------- listings that do not fit ----------

  /** Where an entry starts. */
  function StartOf(es: seq<Entry>, k: nat): nat
    requires k <= |es|
  {
    if k == 0 then 0 else |Print(es[0])| + StartOf(es[1..], k - 1)
  }

  /** In a listing with narrow numbers, a listed name matches at the start of its entry only. */
  lemma {:induction false} MatchesAtStart(es: seq<Entry>, k: nat, i: nat)
    requires k < |es| && Distinct(es) && forall e :: e in es ==> Name(e.name) && Narrow(e)
    requires MatchAt(PrintDir(es), es[k].name, i)
    ensures i == StartOf(es, k)
  {
    hide MatchAt, Name, Print;
    var rest := PrintDir(es[1..]);
    assert es[0] in es && es[k] in es;
    EntryStep(es[0], rest, es[k].name, i);
    if k > 0 {
      assert es[1..][k - 1] == es[k];
      MatchesAtStart(es[1..], k - 1, i - |Print(es[0])|);
    } else if i > 0 {
      NoMatchUnlisted(es[1..], es[0].name, i - |Print(es[0])|);
    }
  }

  lemma {:induction false} NoMatchUnlisted(es: seq<Entry>, x: string, i: nat)
    requires Name(x) && forall e :: e in es ==> Name(e.name) && Narrow(e) && e.name != x
    ensures !MatchAt(PrintDir(es), x, i)
  {
    if es != [] {
      hide MatchAt, Name, Print;
      assert es[0] in es;
      EntryStep(es[0], PrintDir(es[1..]), x, i);
      if i >= |Print(es[0])| { NoMatchUnlisted(es[1..], x, i - |Print(es[0])|); }
    }
  }

  lemma CutMatches(t: string, n: nat, x: string, i: nat)
    requires n <= |t| && MatchAt(t[..n], x, i)
    ensures MatchAt(t, x, i) && i + |x| < n
  {
    assert t[..n][i..i + |x|] == t[i..i + |x|];
  }

  /** Even if the search stopped at the end of the block, it would not find the name of an entry that
      does not start early enough. */
  lemma BeyondBlock(es: seq<Entry>, k: nat, r: int)
    requires k < |es| && Distinct(es) && forall e :: e in es ==> Name(e.name) && Narrow(e)
    requires StartOf(es, k) + |es[k].name| >= BLOCK_SIZE && |PrintDir(es)| >= BLOCK_SIZE
    requires Answer(PrintDir(es)[..BLOCK_SIZE], es[k].name, r)
    ensures r == -1
  {
    hide MatchAt, Name, PrintDir, StartOf;
    var t := PrintDir(es);
    forall i: nat ensures !MatchAt(t[..BLOCK_SIZE], es[k].name, i) {
      if MatchAt(t[..BLOCK_SIZE], es[k].name, i) {
        CutMatches(t, BLOCK_SIZE, es[k].name, i);
        MatchesAtStart(es, k, i);
      }
    }
  }

  function Repeat(c: char, n: nat): (s: string)
    ensures |s| == n && forall i :: 0 <= i < n ==> s[i] == c
  {
    seq(n, _ => c)
  }

  function LongNames(): seq<Entry> {
    [Entry(Repeat('a', 200), 7), Entry(Repeat('b', 200), 8), Entry(Repeat('c', 200), 9), Entry("d", 10)]
  }

  lemma LongNamesAreNames()
    ensures Distinct(LongNames()) && forall e :: e in LongNames() ==> Name(e.name) && Narrow(e)
  {
    hide Name;
    var es := LongNames();
    LetterName(es[0].name);
    LetterName(es[1].name);
    LetterName(es[2].name);
    LetterName(es[3].name);
    assert es[0].name[0] == 'a' && es[1].name[0] == 'b' && es[2].name[0] == 'c' && es[3].name[0] == 'd';
  }

  /** A listing of four narrow entries that does not fit: its last name is lost, whether strlen leaves
      the block or is thought to stop at its end. */
  lemma OverflowingListing()
    ensures Distinct(LongNames()) && forall e :: e in LongNames() ==> Name(e.name) && Narrow(e)
    ensures |PrintDir(LongNames())| >= BLOCK_SIZE && LongNames()[3] == Entry("d", 10)
    ensures forall r :: Result(BlockOf(PrintDir(LongNames())), "d", r) ==> r == None
    ensures forall r :: Answer(PrintDir(LongNames())[..BLOCK_SIZE], "d", r) ==> r == -1
  {
    hide PrintDir, Answer, BlockOf, Text, Name, Distinct;
    var es := LongNames();
    LongNamesAreNames();
    LongStart(es);
    NamesHaveNoNul(es);
    PrintedHasNoNul(es);
    BlockHolds(PrintDir(es));
    forall r | Answer(PrintDir(es)[..BLOCK_SIZE], "d", r) ensures r == -1 { BeyondBlock(es, 3, r); }
  }

  lemma LetterName(s: string)
    requires s != "" && forall i :: 0 <= i < |s| ==> 'a' <= s[i] <= 'z'
    ensures Name(s)
  {
    assert !IsDigit(s[0]);
  }

  lemma LongStart(es: seq<Entry>)
    requires |es| == 4 && forall i :: 0 <= i < 3 ==> |es[i].name| == 200
    ensures StartOf(es, 3) >= 600 && |PrintDir(es)| >= 600
  {
    var a, b := es[1..], es[1..][1..];
    assert a[0] == es[1] && b[0] == es[2];
    assert PrintDir(b) == Print(b[0]) + PrintDir(b[1..]);
    assert PrintDir(a) == Print(a[0]) + PrintDir(b);
    assert StartOf(es, 3) == |Print(es[0])| + StartOf(a, 2);
    assert StartOf(a, 2) == |Print(a[0])| + StartOf(b, 1);
    assert StartOf(b, 1) >= |Print(b[0])|;
  }
}
