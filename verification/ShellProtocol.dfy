/**
 The messages between the shell and the process server. The shell asks for a command to be spawned,
 takes one reply, and for a foreground command takes a second message when the process has ended;
 processes end in any order and at any time. A message is handed over when one side sends and the
 other receives, and the receiver cannot tell which message it was meant to get.
 */
module ShellProtocol {
  import opened Egos
  import Directory
  import D = DirectoryBlock

  const PROC_SPAWN := 0
  const PROC_EXIT := 1
  const CMD_OK := 0
  const CMD_ERROR := 1

  /** The words of a command line; there is at least one. */
  type Args = a: seq<string> | |a| > 0 witness [""]

  /** The test both sides make on the last argument. */
  predicate Background(args: Args) {
    var last := args[|args| - 1];
    last != "" && last[0] == '&'
  }

  datatype Shell =
    | Idle
    | AskSpawn(args: Args)     // in sys_send
    | AskKillAll               // in sys_send
    | AwaitReply(args: Args)   // in the first sys_recv
    | AwaitExit                // in the second sys_recv

  datatype Server =
    | Receiving
    | Sending(kind: int)       // in sys_send to the shell

  /** live: pids of user processes; ending: those of them that are sending their exit message. */
  datatype State = State(shell: Shell, server: Server, waiting: bool, app: int, live: set<int>, ending: set<int>)

  datatype Event =
    | TypeCommand(args: Args)
    | TypeKillAll
    | Exit(pid: int)                        // a process starts to send its exit message
    | ServeSpawn(found: bool, pid: int)     // pid: what proc_alloc returns if the command is found
    | ServeExit(sender: int)
    | ServeKillAll
    | Deliver                               // the server's message reaches the shell

  predicate Allowed(s: State, e: Event) {
    match e
    case TypeCommand(_) => s.shell.Idle?
    case TypeKillAll => s.shell.Idle?
    case Exit(pid) => pid in s.live && pid !in s.ending
    case ServeSpawn(found, pid) =>
      s.server.Receiving? && s.shell.AskSpawn? && (found ==> GPID_USER_START <= pid < MAX_NPROCESS && pid !in s.live)
    case ServeExit(sender) => s.server.Receiving? && sender in s.ending
    case ServeKillAll => s.server.Receiving? && s.shell.AskKillAll?
    case Deliver => s.server.Sending? && (s.shell.AwaitReply? || s.shell.AwaitExit?)
  }

  /** What the shell does next when it receives a message. */
  function ShellReceives(sh: Shell, kind: int): Shell {
    if sh.AwaitReply? && kind == CMD_OK && !Background(sh.args) then AwaitExit else Idle
  }

  function Step(s: State, e: Event): State
    requires Allowed(s, e)
  {
    match e
    case TypeCommand(args) => s.(shell := AskSpawn(args))
    case TypeKillAll => s.(shell := AskKillAll)
    case Exit(pid) => s.(ending := s.ending + {pid})
    case ServeSpawn(found, pid) =>
      var s' := s.(
        shell := AwaitReply(s.shell.args),
        server := Sending(if found then CMD_OK else CMD_ERROR),
        waiting := !Background(s.shell.args) && found);
      if found then s'.(app := pid, live := s.live + {pid}) else s'
    case ServeExit(sender) =>
      s.(live := s.live - {sender}, ending := s.ending - {sender},
        server := if s.waiting && s.app == sender then Sending(PROC_EXIT) else Receiving)
    case ServeKillAll => s.(shell := Idle, live := {}, ending := {})
    case Deliver => s.(server := Receiving, shell := ShellReceives(s.shell, s.server.kind))
  }

  /** The shell has just been spawned; the server's flag has not been set. */
  predicate Boot(s: State) {
    s.shell.Idle? && s.server.Receiving? && s.live == {} && s.ending == {}
  }

  // ---------- what every step keeps ----------

  /** The process the server would announce is alive. */
  predicate Watched(s: State) { s.waiting && s.app in s.live }

  predicate Inv(s: State) {
    && s.ending <= s.live
    && match s.shell {
      case Idle => s.server.Receiving? && !Watched(s)
      case AskSpawn(_) => s.server.Receiving? && !Watched(s)
      case AskKillAll => s.server.Receiving? && !Watched(s)
      case AwaitReply(args) =>
        && s.server.Sending?
        && (s.server.kind == CMD_OK || s.server.kind == CMD_ERROR)
        && (s.waiting <==> s.server.kind == CMD_OK && !Background(args))
        && (s.waiting ==> s.app in s.live)
      case AwaitExit => s.waiting && (s.server.Receiving? <==> s.app in s.live)
    }
  }

  lemma BootInv(s: State)
    requires Boot(s)
    ensures Inv(s)
  {
  }

  /** The server only ever sends to a shell that is receiving, and no message is left over when the
      shell reads the next command. */
  lemma InvStep(s: State, e: Event)
    requires Inv(s) && Allowed(s, e)
    ensures Inv(Step(s, e))
  {
  }

  // ---------- runs ----------

  ghost predicate Run(s: State, es: seq<Event>, t: State)
    decreases |es|
  {
    if es == [] then s == t else Allowed(s, es[0]) && Run(Step(s, es[0]), es[1..], t)
  }

  /** Messages a command calls for: the reply, and the announcement for a foreground process. */
  function Due(args: Args, found: bool): nat { if found && !Background(args) then 2 else 1 }

  /** A command whose last word starts with & calls for one message; any other calls for two if it is
      found, and for one if not. */
  lemma DueOf(words: seq<string>, last: string, rest: string)
    ensures Due(words + ["&" + rest], true) == 1
    ensures (last == "" || last[0] != '&') ==> Due(words + [last], true) == 2
    ensures Due(words + [last], false) == 1
  {
    assert ("&" + rest)[0] == '&';
  }

  /** Messages the server has handed to its send call during the run. */
  function Sent(s: State, es: seq<Event>): nat
    decreases |es|
  {
    if es == [] || !Allowed(s, es[0]) then 0
    else (if s.server.Receiving? && Step(s, es[0]).server.Sending? then 1 else 0) + Sent(Step(s, es[0]), es[1..])
  }

  /** Messages the shell has received. */
  function Received(es: seq<Event>): nat {
    if es == [] then 0 else (if es[0].Deliver? then 1 else 0) + Received(es[1..])
  }

  /** Messages called for by the commands served during the run. */
  function TotalDue(s: State, es: seq<Event>): nat
    decreases |es|
  {
    if es == [] || !Allowed(s, es[0]) then 0
    else
      (if es[0].ServeSpawn? then Due(s.shell.args, es[0].found) else 0) + TotalDue(Step(s, es[0]), es[1..])
  }

  /** Messages the shell still waits for. */
  function Owed(s: State): nat {
    match s.shell
    case AwaitReply(args) => (if s.server.Sending? && s.server.kind == CMD_OK && !Background(args) then 2 else 1)
    case AwaitExit => 1
    case _ => 0
  }

  function InFlight(s: State): nat { if s.server.Sending? then 1 else 0 }

  /** In every run: what was received and is still owed is what the commands call for, and what was
      sent is what was received and is in flight. */
  lemma {:induction false} Balance(s: State, es: seq<Event>, t: State)
    requires Inv(s) && Run(s, es, t)
    ensures Inv(t)
    ensures Received(es) + Owed(t) == TotalDue(s, es) + Owed(s)
    ensures Received(es) + InFlight(t) == Sent(s, es) + InFlight(s)
    decreases |es|
  {
    if es != [] {
      InvStep(s, es[0]);
      Balance(Step(s, es[0]), es[1..], t);
    }
  }

  /** Whenever the shell is back at its prompt, the server has sent and the shell has received
      exactly two messages for each foreground command that was found and one for every other. */
  lemma PromptIsSettled(s: State, es: seq<Event>, t: State)
    requires Boot(s) && Run(s, es, t) && t.shell.Idle?
    ensures Sent(s, es) == Received(es) == TotalDue(s, es)
    ensures t.server.Receiving? && !Watched(t)
  {
    BootInv(s);
    Balance(s, es, t);
  }

  ghost predicate NoPrompt(es: seq<Event>) {
    forall i :: 0 <= i < |es| ==> !es[i].TypeCommand? && !es[i].TypeKillAll?
  }

  /** One command: from its being typed to the next prompt it is served once, with found and pid;
      the shell receives exactly the messages it calls for, and the process of a foreground command
      has then ended. */
  lemma OneCommand(s: State, args: Args, es: seq<Event>, t: State) returns (k: nat)
    requires Inv(s) && s.shell.Idle? && t.shell.Idle? && NoPrompt(es)
    requires Run(s, [TypeCommand(args)] + es, t)
    ensures k < |es| && es[k].ServeSpawn? && (forall i :: 0 <= i < |es| && es[i].ServeSpawn? ==> i == k)
    ensures Received(es) == Sent(Step(s, TypeCommand(args)), es) == Due(args, es[k].found)
    ensures es[k].found && !Background(args) ==> es[k].pid !in t.live
  {
    var all := [TypeCommand(args)] + es;
    assert all[1..] == es && all[0] == TypeCommand(args);
    InvStep(s, TypeCommand(args));
    k := AskedRun(Step(s, TypeCommand(args)), es, t);
    Balance(Step(s, TypeCommand(args)), es, t);
  }

  lemma {:induction false} AskedRun(s: State, es: seq<Event>, t: State) returns (k: nat)
    requires Inv(s) && s.shell.AskSpawn? && t.shell.Idle? && Run(s, es, t) && NoPrompt(es)
    ensures k < |es| && es[k].ServeSpawn? && (forall i :: 0 <= i < |es| && es[i].ServeSpawn? ==> i == k)
    ensures TotalDue(s, es) == Due(s.shell.args, es[k].found)
    ensures es[k].found && !Background(s.shell.args) ==> es[k].pid !in t.live
    decreases |es|
  {
    var e, next := es[0], Step(s, es[0]);
    InvStep(s, e);
    if e.ServeSpawn? {
      ServedRun(next, es[1..], t);
      k := 0;
      forall i | 0 < i < |es| ensures !es[i].ServeSpawn? { assert es[i] == es[1..][i - 1]; }
    } else {
      var j := AskedRun(next, es[1..], t);
      k := j + 1;
      forall i | 0 < i < |es| && es[i].ServeSpawn? ensures i == k { assert es[i] == es[1..][i - 1]; }
    }
  }

  /** After a command was served nothing is served again before the next prompt, and the watched
      process, if any, is gone by then. */
  lemma {:induction false} ServedRun(s: State, es: seq<Event>, t: State)
    requires Inv(s) && !s.shell.AskSpawn? && !s.shell.AskKillAll? && t.shell.Idle? && Run(s, es, t) && NoPrompt(es)
    ensures forall i :: 0 <= i < |es| ==> !es[i].ServeSpawn?
    ensures TotalDue(s, es) == 0
    ensures t.live <= s.live && (s.waiting ==> s.app !in t.live)
    decreases |es|
  {
    if es != [] {
      InvStep(s, es[0]);
      ServedRun(Step(s, es[0]), es[1..], t);
      forall i | 0 < i < |es| ensures !es[i].ServeSpawn? { assert es[i] == es[1..][i - 1]; }
    }
  }

  /** Which processes live: a command that is found adds its process, an exit removes the process that
      has ended and is announced exactly if the shell waits for that process, and killall removes all. */
  lemma WhoLives(s: State, e: Event)
    requires Inv(s) && Allowed(s, e)
    ensures match e
      case ServeSpawn(found, pid) =>
        Step(s, e).live == (if found then s.live + {pid} else s.live) && (found ==> Step(s, e).app == pid)
      case ServeExit(p) =>
        && p in s.live && Step(s, e).live == s.live - {p} && p !in Step(s, e).ending
        && (Step(s, e).server.Sending? <==> s.shell.AwaitExit? && s.app == p)
      case ServeKillAll => Step(s, e).live == {} && Step(s, e).shell.Idle? && Step(s, e).server.Receiving?
      case _ => Step(s, e).live == s.live
  {
  }

  /** The two programs never block each other: away from the prompt, either a step of the shell and
      the server is possible, or the shell waits for a live foreground process, whose exit makes
      the server announce it. */
  lemma NoDeadlock(s: State)
    requires Inv(s) && !s.shell.Idle?
    ensures s.server.Sending? ==> Allowed(s, Deliver)
    ensures s.shell.AskSpawn? ==> Allowed(s, ServeSpawn(false, 0))
    ensures s.shell.AskKillAll? ==> Allowed(s, ServeKillAll)
    ensures s.server.Receiving? && s.shell.AwaitExit? ==>
      && s.app in s.live
      && (s.app !in s.ending ==> Allowed(s, Exit(s.app)))
      && (s.app in s.ending ==> Step(s, ServeExit(s.app)).server == Sending(PROC_EXIT))
    ensures s.shell.AwaitReply? ==> s.server.Sending?
  {
  }

  // ---------- the server's code ----------

  /** A message as it lies in the server's buffer; a reply overwrites only its first word. */
  datatype Message = Message(kind: int, args: Args)

  /** Overrun: a lookup has read past its buffer. */
  datatype Outcome = NotFound | Started | NoPid | Overrun

  /** The first block of each file. */
  type FileSystem = int -> D.Buffer

  /** The root directory lists bin/ as inode bin, and that directory lists the entries. */
  ghost predicate BinLists(fs: FileSystem, root: seq<Directory.Entry>, bin: nat, entries: seq<Directory.Entry>) {
    D.Listing(fs(0), root) && Directory.Entry("bin/", bin) in root && D.Listing(fs(bin), entries)
  }

  /** The command can be asked of the directory. */
  ghost predicate Askable(entries: seq<Directory.Entry>, name: string) {
    Directory.Name(name) && |name| <= |Directory.PrintDir(entries)|
  }

  lemma BinIsName()
    ensures Directory.Name("bin/")
  {
    assert "bin/"[0] == 'b' && !Directory.IsDigit('b');
  }

  lemma FindBin(fs: FileSystem, root: seq<Directory.Entry>, bin: nat, entries: seq<Directory.Entry>, r: Option<int>)
    requires BinLists(fs, root, bin, entries) && D.Result(fs(0), "bin/", r)
    ensures r == Some(bin as int)
  {
    hide D.Result, D.Listing, Directory.Name, Directory.PrintDir;
    BinIsName();
    var k :| 0 <= k < |root| && root[k] == Directory.Entry("bin/", bin);
    D.ListedIsShort(root, k);
    D.DirectoryRoundTrip(fs(0), root, "bin/", r);
  }

  /** The lowest user pid that is not in use. */
  predicate FirstFree(live: set<int>, pid: int) {
    5 <= pid < 16 && pid !in live && forall p :: 5 <= p < pid ==> p in live
  }

  predicate NoneFree(live: set<int>) { forall p :: 5 <= p < 16 ==> p in live }

  class ProcServer {
    var shellWaiting: bool
    var appIno: int
    var appPid: int
    var buf: Message

    constructor ()
      ensures appPid == 0
    {
      appIno, appPid := 0, 0;
      buf := Message(PROC_SPAWN, [""]);
    }

    ghost predicate Shows(s: State)
      reads this
    {
      shellWaiting == s.waiting && appPid == s.app
    }

    /** app_spawn: looks up bin/ in the root directory and the command in there.  A command that the
        directory lists is started from its file under a pid that nobody uses, and any other is refused. */
    method AppSpawn(fs: FileSystem, live: set<int>,
                    ghost root: seq<Directory.Entry>, ghost bin: nat, ghost entries: seq<Directory.Entry>)
      returns (o: Outcome)
      requires |buf.args[0]| < 0x8000_0000
      modifies `appIno, `appPid
      ensures BinLists(fs, root, bin, entries) && Askable(entries, buf.args[0]) ==>
        && o != Overrun
        && (o == NotFound <==> forall e :: e in entries ==> e.name != buf.args[0])
        && (o != NotFound ==> appIno >= 0 && Directory.Entry(buf.args[0], appIno) in entries)
      ensures o == Started ==> FirstFree(live, appPid)
      ensures o == NoPid ==> NoneFree(live)
      ensures o != Started ==> appPid == old(appPid)
    {
      hide D.Result, D.Listing, Directory.Name, Directory.PrintDir;
      var binIno := D.DirLookup(fs(0), "bin/");
      if BinLists(fs, root, bin, entries) { FindBin(fs, root, bin, entries, binIno); }
      if binIno == None { return Overrun; }
      var ino := D.DirLookup(fs(binIno.value), buf.args[0]);
      if BinLists(fs, root, bin, entries) && Askable(entries, buf.args[0]) {
        D.DirectoryRoundTrip(fs(bin), entries, buf.args[0], ino);
      }
      if ino == None { return Overrun; }
      appIno := ino.value;
      if appIno < 0 { return NotFound; }
      var pid := GPID_USER_START;
      while pid < MAX_NPROCESS
        invariant GPID_USER_START <= pid <= MAX_NPROCESS
        invariant forall p :: GPID_USER_START <= p < pid ==> p in live
      {
        if pid !in live {
          appPid := pid;
          return Started;
        }
        pid := pid + 1;
      }
      return NoPid;
    }

    /** The PROC_SPAWN case of the server's loop, on the request the shell sent; fatal when the pids
        are used up or a lookup has read past its buffer. */
    method HandleSpawn(ghost s: State, fs: FileSystem, live: set<int>,
                       ghost root: seq<Directory.Entry>, ghost bin: nat, ghost entries: seq<Directory.Entry>)
      returns (fatal: bool, reply: int, ghost e: Event)
      requires Shows(s) && live == s.live && s.server.Receiving? && s.shell.AskSpawn?
      requires buf == Message(PROC_SPAWN, s.shell.args) && |buf.args[0]| < 0x8000_0000
      modifies this
      ensures !fatal ==> e.ServeSpawn? && Allowed(s, e) && Shows(Step(s, e)) && Step(s, e).server == Sending(reply)
      ensures !fatal ==> reply == if e.found then 0 else 1
      ensures BinLists(fs, root, bin, entries) && Askable(entries, s.shell.args[0]) ==>
        && (fatal ==> NoneFree(live))
        && (!fatal ==> (e.found <==> exists f :: f in entries && f.name == s.shell.args[0]))
    {
      hide BinLists, Askable;
      var o := AppSpawn(fs, live, root, bin, entries);
      e := ServeSpawn(o == Started, appPid);
      if o == NoPid || o == Overrun { return true, CMD_ERROR, e; }
      buf := buf.(kind := if o == Started then CMD_OK else CMD_ERROR);
      shellWaiting := !Background(buf.args) && buf.kind == CMD_OK;
      fatal, reply := false, buf.kind;
    }

    /** The PROC_EXIT case: whether, and with which first word, the buffer is sent to the shell. */
    method HandleExit(ghost s: State, sender: int) returns (notify: bool, kind: int)
      requires Shows(s) && Allowed(s, ServeExit(sender)) && buf.kind == PROC_EXIT
      ensures Shows(Step(s, ServeExit(sender)))
      ensures Step(s, ServeExit(sender)).server == if notify then Sending(kind) else Receiving
      ensures Inv(s) && notify ==> s.shell.AwaitExit?
    {
      notify := shellWaiting && appPid == sender;
      kind := buf.kind;
    }
  }
}
