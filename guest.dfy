/**
 * The guest (guest.go): one polling pass over the calendar. For every entry
 * it decides whether the entry is a command for this host that it has not yet
 * answered, runs the command and appends its answer to the entry's
 * description. The pass repeats on a timer; a second pass over the same
 * entries does nothing.
 */
module Guest {
  import opened Wrappers
  import opened GoStrings
  import opened CommandCodec
  import opened OutputCodec
  import opened Calendar

  // ---------------------------------------------------------------------------
  // Running a command

  /** What reading a file gives: its contents already base64-encoded, or the
      error's message. */
  datatype FileRead = FileData(encoded: string) | FileError(message: string)

  /** A shell run: the combined standard output and error, and the message of
      the error the run ended with, if any. */
  datatype ShellRun = ShellRun(output: string, failure: Option<string>)

  /** A program started with one flag and one command line. */
  datatype Invocation = Invocation(program: string, flag: string, line: string)

  /** The operating-system facts and effects a command can see: environment
      variables, platform, working directory, file reads and shell runs. */
  datatype HostEnv = HostEnv(user: string, username: string, goos: string, goarch: string, cwd: string,
                             readFile: string -> FileRead, run: Invocation -> ShellRun)

  /** The line every answer begins with. */
  function HostLine(hostname: string): string {
    "[Host: " + hostname + "]"
  }

  /** `$USER`, else `$USERNAME`, else `unknown`. */
  function CurrentUser(env: HostEnv): (r: string)
    ensures r != ""
    ensures r == env.user || r == env.username || r == "unknown"
    ensures env.user != "" ==> r == env.user
    ensures env.user == "" ==> r == (if env.username != "" then env.username else "unknown")
  {
    if env.user != "" then env.user
    else if env.username != "" then env.username
    else "unknown"
  }

  /** The shell a command that is not built in runs under. */
  function ShellInvocation(goos: string, command: string, args: string): (r: Invocation)
    ensures r.line == command + " " + args
    ensures r.program == "cmd" <==> goos == "windows"
    ensures r == Invocation("cmd", "/c", r.line) || r == Invocation("sh", "-c", r.line)
  {
    if goos == "windows" then Invocation("cmd", "/c", command + " " + args)
    else Invocation("sh", "-c", command + " " + args)
  }

  /** What a command reports after the host line. `whoami`, `pwd`, `upload`
      and `exit` are built in; anything else, the empty command included,
      goes to the shell. */
  function Report(hostname: string, command: string, args: string, env: HostEnv): (r: string)
    ensures command == "whoami" ==> HasPrefix(r, "User: " + CurrentUser(env) + "\n")
    ensures command == "whoami" ==>
              r == "User: " + CurrentUser(env) + "\n" + ("Hostname: " + hostname + "\nOS: " + env.goos + "/" + env.goarch)
    ensures command == "pwd" ==> r == env.cwd
    ensures command == "exit" ==> r == "Terminating..."
    ensures command == "upload" && env.readFile(TrimSpace(args)).FileError? ==>
              r == "Error: " + env.readFile(TrimSpace(args)).message
    ensures command == "upload" && env.readFile(TrimSpace(args)).FileData? ==>
              HasPrefix(r, "File: " + TrimSpace(args) + "\n[DATA]\n")
              && HasSuffix(r, env.readFile(TrimSpace(args)).encoded + "\n[/DATA]")
    ensures command == "upload" && env.readFile(TrimSpace(args)).FileData? ==>
              r == "File: " + TrimSpace(args) + "\n[DATA]\n" + (env.readFile(TrimSpace(args)).encoded + "\n[/DATA]")
    ensures command !in {"whoami", "pwd", "upload", "exit"} ==>
              var run := env.run(ShellInvocation(env.goos, command, args));
              HasSuffix(r, run.output) && (run.failure.Some? ==> HasPrefix(r, "Error: " + run.failure.value + "\n"))
    ensures command !in {"whoami", "pwd", "upload", "exit"} ==>
              var run := env.run(ShellInvocation(env.goos, command, args));
              r == (if run.failure.Some? then "Error: " + run.failure.value + "\n" + run.output else run.output)
  {
    if command == "whoami" then
      var head := "User: " + CurrentUser(env) + "\n";
      var tail := "Hostname: " + hostname + "\nOS: " + env.goos + "/" + env.goarch;
      ConcatEnds(head, tail);
      head + tail
    else if command == "pwd" then
      env.cwd
    else if command == "upload" then
      var filepath := TrimSpace(args);
      match env.readFile(filepath)
      case FileError(message) => "Error: " + message
      case FileData(encoded) =>
        var head := "File: " + filepath + "\n[DATA]\n";
        var tail := encoded + "\n[/DATA]";
        ConcatEnds(head, tail);
        head + tail
    else if command == "exit" then
      "Terminating..."
    else
      var run := env.run(ShellInvocation(env.goos, command, args));
      match run.failure
      case Some(message) =>
        var head := "Error: " + message + "\n";
        ConcatEnds(head, run.output);
        head + run.output
      case None =>
        ConcatEnds([], run.output);
        assert [] + run.output == run.output;
        run.output
  }

  /** The answer to one command: whichever branch runs, the host line, a
      line break, then what the command reports. */
  function ExecuteCommand(hostname: string, command: string, args: string, env: HostEnv): (r: string)
    ensures HasPrefix(r, HostLine(hostname) + "\n")
    ensures '\n' !in hostname ==> Split(r, '\n')[0] == HostLine(hostname)
  {
    var hostInfo := HostLine(hostname) + "\n";
    var report := Report(hostname, command, args, env);
    assert (hostInfo + report)[..|hostInfo|] == hostInfo;
    FirstLine(HostLine(hostname), report);
    assert hostInfo + report == HostLine(hostname) + ['\n'] + report;
    hostInfo + report
  }

  /** The first piece of a text is its first line. */
  lemma FirstLine(line: string, rest: string)
    ensures '\n' !in line ==> Split(line + ['\n'] + rest, '\n')[0] == line
  {
    if '\n' !in line {
      SplitAppend(line, '\n', rest);
      SplitNoSep(line, '\n');
    }
  }

  // ---------------------------------------------------------------------------
  // The per-entry decision

  /** What the guest does with one entry. */
  datatype Decision = NotACommand | AlreadyExecuted | NotTargeted | Execute(command: string, args: string)

  /** The filter, parse and target steps for one entry: no command marker,
      then this host's output marker, then the target decide whether the
      decoded command runs. */
  function Decide(hostname: string, e: Entry): (d: Decision)
    ensures d == NotACommand <==> !IsCommandSummary(e.summary)
    ensures d == AlreadyExecuted <==> IsCommandSummary(e.summary) && HasBlock(e.description, hostname)
    ensures d.Execute? || d == NotTargeted ==>
              Decode(e.summary).Some? && (d.Execute? <==> ShouldExecute(Decode(e.summary).value.target, hostname))
    ensures d.Execute? ==> d.command == Decode(e.summary).value.command && d.args == Decode(e.summary).value.args
  {
    if !IsCommandSummary(e.summary) then NotACommand
    else if HasBlock(e.description, hostname) then AlreadyExecuted
    else
      var rec := Decode(e.summary).value;
      if ShouldExecute(rec.target, hostname) then Execute(rec.command, rec.args) else NotTargeted
  }

  /** An entry this host will not run (again). */
  predicate Settled(hostname: string, e: Entry) {
    !Decide(hostname, e).Execute?
  }

  /** `e2` is `e` after answers were appended: same identity and summary, the
      old description a prefix of the new one. */
  predicate Extends(e: Entry, e2: Entry) {
    e2.uid == e.uid && e2.summary == e.summary && HasPrefix(e2.description, e.description)
  }

  // ---------------------------------------------------------------------------
  // The pass as a function of the store

  /** The store after this host's answer `output` is written back to the
      entry under `path`; unchanged when there is no such entry or the path
      is unreachable. */
  function WriteBack(events: map<string, Entry>, path: string, hostname: string, output: string,
                     unreachable: set<string>): (r: map<string, Entry>)
    ensures r.Keys == events.Keys
    ensures forall p :: p in events && p != path ==> r[p] == events[p]
    ensures path in events && path !in unreachable ==>
              Extends(events[path], r[path]) && HasBlock(r[path].description, hostname)
              && r[path] == events[path].(description := AppendBlock(events[path].description, hostname, output))
    ensures path !in events || path in unreachable ==> r == events
  {
    if path in events && path !in unreachable then
      var e := events[path];
      events[path := e.(description := AppendBlock(e.description, hostname, output))]
    else events
  }

  /** One query item: the decision is taken on the queried data, the answer
      is appended to what the store holds now. */
  function PassStep(hostname: string, env: HostEnv, unreachable: set<string>,
                    events: map<string, Entry>, item: QueryItem): (r: map<string, Entry>)
    ensures r.Keys == events.Keys
    ensures forall p :: p in events && p != item.path ==> r[p] == events[p]
  {
    if item.data.None? then events
    else
      match Decide(hostname, item.data.value)
      case Execute(command, args) =>
        WriteBack(events, item.path, hostname, ExecuteCommand(hostname, command, args, env), unreachable)
      case _ => events
  }

  /** A whole pass over the query result, item by item. */
  function GuestPass(hostname: string, env: HostEnv, unreachable: set<string>,
                     events: map<string, Entry>, items: seq<QueryItem>): (r: map<string, Entry>)
    ensures r.Keys == events.Keys
    decreases |items|
  {
    if items == [] then events
    else GuestPass(hostname, env, unreachable, PassStep(hostname, env, unreachable, events, items[0]), items[1..])
  }

  lemma PassCons(hostname: string, env: HostEnv, unreachable: set<string>,
                 events: map<string, Entry>, items: seq<QueryItem>, i: nat)
    requires i < |items|
    ensures GuestPass(hostname, env, unreachable, events, items[i..])
            == GuestPass(hostname, env, unreachable, PassStep(hostname, env, unreachable, events, items[i]), items[i + 1..])
  {
    assert items[i..][1..] == items[i + 1..];
  }

  /** An item the guest does not run leaves the rest of the pass to the next item. */
  lemma PassSkip(hostname: string, env: HostEnv, unreachable: set<string>,
                 events: map<string, Entry>, items: seq<QueryItem>, i: nat)
    requires i < |items|
    requires items[i].data.Some? ==> !Decide(hostname, items[i].data.value).Execute?
    ensures GuestPass(hostname, env, unreachable, events, items[i..])
            == GuestPass(hostname, env, unreachable, events, items[i + 1..])
  {
    PassCons(hostname, env, unreachable, events, items, i);
  }

  /** An item the guest runs writes its answer back before the next item. */
  lemma PassRun(hostname: string, env: HostEnv, unreachable: set<string>,
                events: map<string, Entry>, items: seq<QueryItem>, i: nat, command: string, args: string)
    requires i < |items| && items[i].data.Some?
    requires Decide(hostname, items[i].data.value) == Execute(command, args)
    ensures GuestPass(hostname, env, unreachable, events, items[i..])
            == GuestPass(hostname, env, unreachable,
                         WriteBack(events, items[i].path, hostname, ExecuteCommand(hostname, command, args, env), unreachable),
                         items[i + 1..])
  {
    PassCons(hostname, env, unreachable, events, items, i);
  }

  // ---------------------------------------------------------------------------
  // The guest

  class Guest {
    const hostname: string
    const store: Store

    constructor (hostname: string, store: Store)
      ensures this.hostname == hostname && this.store == store
    {
      this.hostname := hostname;
      this.store := store;
    }

    /** Fetches the entry, appends this host's output block to its
        description and puts it back. */
    method UpdateEventWithOutput(output: string, path: string, unreachable: set<string>) returns (ok: bool)
      modifies store
      ensures ok == (path in old(store.events) && path !in unreachable)
      ensures store.events == WriteBack(old(store.events), path, hostname, output, unreachable)
    {
      var obj := store.Get(path);
      if obj.None? {
        return false;
      }
      var e := obj.value;
      var newDescription := AppendBlock(e.description, hostname, output);
      ok := store.Put(path, e.(description := newDescription), path in unreachable);
    }

    /** One polling pass over the entries a query returned. */
    method CheckAndExecute(items: seq<QueryItem>, env: HostEnv, unreachable: set<string>)
      modifies store
      ensures store.events == GuestPass(hostname, env, unreachable, old(store.events), items)
    {
      for i := 0 to |items|
        invariant GuestPass(hostname, env, unreachable, store.events, items[i..])
                  == GuestPass(hostname, env, unreachable, old(store.events), items)
      {
        var item := items[i];
        if item.data.None? {
          PassSkip(hostname, env, unreachable, store.events, items, i);
          continue;
        }
        var summary := item.data.value.summary;
        var description := item.data.value.description;
        if !HasPrefix(summary, COMMAND_PREFIX) {
          PassSkip(hostname, env, unreachable, store.events, items, i);
          continue;
        }
        if Contains(description, StartMarker(hostname)) {
          PassSkip(hostname, env, unreachable, store.events, items, i);
          continue;
        }
        var commandLine := TrimSpace(TrimPrefix(summary, COMMAND_PREFIX));
        assert commandLine == CommandLine(summary);
        var targetHost := "";
        var actualCmd := commandLine;
        if HasPrefix(commandLine, "@") {
          var parts := SplitN2(commandLine, ':');
          if |parts| == 2 {
            targetHost := TrimPrefix(parts[0], "@");
            actualCmd := parts[1];
            if targetHost != "" && targetHost != hostname && targetHost != "*" {
              assert (targetHost, actualCmd) == ParseTarget(commandLine);
              SkipRule(targetHost, hostname);
              DecideSkip(hostname, item.data.value);
              PassSkip(hostname, env, unreachable, store.events, items, i);
              continue;
            }
          }
        }
        assert (targetHost, actualCmd) == ParseTarget(commandLine);
        SkipRule(targetHost, hostname);
        var cmdParts := Fields(actualCmd);
        var command := "";
        var args := "";
        if |cmdParts| > 0 {
          command := cmdParts[0];
        }
        if |cmdParts| > 1 {
          args := Join(cmdParts[1..], " ");
        }
        assert (command, args) == SplitCommand(actualCmd);
        DecideExecute(hostname, item.data.value);
        PassRun(hostname, env, unreachable, store.events, items, i, command, args);
        var output := ExecuteCommand(hostname, command, args, env);
        var _ := UpdateEventWithOutput(output, item.path, unreachable);
      }
      assert items[|items|..] == [];
    }
  }

  // ---------------------------------------------------------------------------
  // Lemmas: the decision

  /** An annotated command line `@T:rest` (after the marker and white space
      are trimmed) is skipped exactly when `T` is neither empty, nor `*`, nor
      this host; otherwise `rest` is run. */
  lemma DecideAnnotated(hostname: string, e: Entry, target: string, rest: string)
    requires IsCommandSummary(e.summary) && !HasBlock(e.description, hostname)
    requires ':' !in target && CommandLine(e.summary) == "@" + target + ":" + rest
    ensures Decide(hostname, e) == NotTargeted <==> target != "" && target != "*" && target != hostname
    ensures Decide(hostname, e) != NotTargeted ==> Decide(hostname, e) == Execute(SplitCommand(rest).0, SplitCommand(rest).1)
  {
    DecodeAnnotated(e.summary, target, rest);
    SkipRule(target, hostname);
  }

  /** An entry that passes the marker, output-marker and target tests runs
      the command split from the command text. */
  lemma DecideExecute(hostname: string, e: Entry)
    requires IsCommandSummary(e.summary) && !HasBlock(e.description, hostname)
    requires ShouldExecute(Classify(ParseTarget(CommandLine(e.summary)).0), hostname)
    ensures var text := ParseTarget(CommandLine(e.summary)).1;
            Decide(hostname, e) == Execute(SplitCommand(text).0, SplitCommand(text).1)
  {
    DecodeLine(e.summary);
  }

  /** An entry whose target does not select this host is not run. */
  lemma DecideSkip(hostname: string, e: Entry)
    requires IsCommandSummary(e.summary)
    requires !ShouldExecute(Classify(ParseTarget(CommandLine(e.summary)).0), hostname)
    ensures !Decide(hostname, e).Execute?
  {
    DecodeLine(e.summary);
  }

  /** A command line that starts with `@` but has no `:` is no annotation:
      the whole line is the command and the entry is never skipped for its
      target. */
  lemma DecideUnannotated(hostname: string, e: Entry)
    requires IsCommandSummary(e.summary) && !HasBlock(e.description, hostname)
    requires ':' !in CommandLine(e.summary)
    ensures Decide(hostname, e) == Execute(SplitCommand(CommandLine(e.summary)).0, SplitCommand(CommandLine(e.summary)).1)
  {
    DecodeUnannotated(e.summary);
  }

  /** A fresh entry made by the organizer for a target and well-formed words
      runs on exactly the hosts the target names, with the first word as the
      command and the others joined by single spaces as its arguments. */
  lemma DecideCreated(hostname: string, uid: string, target: TargetSpec, words: seq<string>)
    requires ValidTarget(target) && WellFormedWords(words)
    requires target.Broadcast? && |words| > 0 ==> words[0][0] != '@'
    ensures var d := Decide(hostname, Entry(uid, Summary(CommandText(target, words)), ""));
            d == (if ShouldExecute(target, hostname)
                  then Execute(if |words| == 0 then "" else words[0], if |words| <= 1 then "" else Join(words[1..], " "))
                  else NotTargeted)
  {
    RoundTrip(target, words);
  }

  /** Appending answers keeps an entry settled. */
  lemma SettledStable(hostname: string, e: Entry, e2: Entry)
    requires Extends(e, e2) && Settled(hostname, e)
    ensures Settled(hostname, e2)
  {
    if IsCommandSummary(e.summary) && HasBlock(e.description, hostname) {
      var rest := e2.description[|e.description|..];
      assert e2.description == e.description + rest;
      ContainsExtend(e.description, StartMarker(hostname), rest);
    }
  }

  /** `Extends` is transitive. */
  lemma ExtendsTrans(e1: Entry, e2: Entry, e3: Entry)
    requires Extends(e1, e2) && Extends(e2, e3)
    ensures Extends(e1, e3)
  {
    assert e3.description[..|e1.description|] == e2.description[..|e2.description|][..|e1.description|];
  }

  // ---------------------------------------------------------------------------
  // Lemmas: the pass

  /** A pass deletes and adds no entry, only extends entries, and leaves the
      entries it was not given, and the unreachable ones, as they were. */
  lemma {:induction false} PassFrame(hostname: string, env: HostEnv, unreachable: set<string>,
                                     events: map<string, Entry>, items: seq<QueryItem>)
    ensures var r := GuestPass(hostname, env, unreachable, events, items);
            r.Keys == events.Keys
            && (forall p :: p in events ==> Extends(events[p], r[p]))
            && (forall p :: p in events && (p !in PathsOf(items) || p in unreachable) ==> r[p] == events[p])
    decreases |items|
  {
    if items != [] {
      var e1 := PassStep(hostname, env, unreachable, events, items[0]);
      PassFrame(hostname, env, unreachable, e1, items[1..]);
      var r := GuestPass(hostname, env, unreachable, events, items);
      assert r == GuestPass(hostname, env, unreachable, e1, items[1..]);
      forall p | p in events
        ensures Extends(events[p], r[p])
      {
        assert Extends(events[p], e1[p]) by {
          if e1[p] == events[p] {
            assert events[p].description[..|events[p].description|] == events[p].description;
          }
        }
        ExtendsTrans(events[p], e1[p], r[p]);
      }
      forall p | p in events && (p !in PathsOf(items) || p in unreachable)
        ensures r[p] == events[p]
      {
        assert items[0].path in PathsOf(items);
        assert p !in PathsOf(items) ==> p !in PathsOf(items[1..]) by {
          if p in PathsOf(items[1..]) {
            var k :| 0 <= k < |items[1..]| && items[1..][k].path == p;
            assert items[k + 1].path == p;
          }
        }
      }
    }
  }

  /** A pass over items that are all settled, or undecodable, changes nothing. */
  lemma {:induction false} PassSkipsSettled(hostname: string, env: HostEnv, unreachable: set<string>,
                                            events: map<string, Entry>, items: seq<QueryItem>)
    requires forall k :: 0 <= k < |items| && items[k].data.Some? ==> Settled(hostname, items[k].data.value)
    ensures GuestPass(hostname, env, unreachable, events, items) == events
    decreases |items|
  {
    if items != [] {
      assert PassStep(hostname, env, unreachable, events, items[0]) == events;
      assert forall k :: 0 <= k < |items[1..]| ==> items[1..][k] == items[k + 1];
      PassSkipsSettled(hostname, env, unreachable, events, items[1..]);
    }
  }

  /** After a pass over items read from `snapshot` (which the store extends),
      every listed entry of the snapshot is settled, provided none of them is
      unreachable. */
  lemma {:induction false} PassSettles(hostname: string, env: HostEnv, unreachable: set<string>,
                                       snapshot: map<string, Entry>, events: map<string, Entry>, items: seq<QueryItem>)
    requires ReadFrom(items, snapshot)
    requires forall p :: p in snapshot ==> p in events && Extends(snapshot[p], events[p])
    requires forall k :: 0 <= k < |items| ==> items[k].path !in unreachable
    ensures var r := GuestPass(hostname, env, unreachable, events, items);
            forall k :: 0 <= k < |items| && items[k].path in snapshot ==> Settled(hostname, r[items[k].path])
    decreases |items|
  {
    if items != [] {
      var item := items[0];
      var e1 := PassStep(hostname, env, unreachable, events, item);
      var r := GuestPass(hostname, env, unreachable, events, items);
      assert r == GuestPass(hostname, env, unreachable, e1, items[1..]);
      PassFrame(hostname, env, unreachable, events, [item]);
      assert GuestPass(hostname, env, unreachable, events, [item]) == e1 by {
        assert [item][1..] == [];
      }
      forall p | p in snapshot
        ensures p in e1 && Extends(snapshot[p], e1[p])
      {
        ExtendsTrans(snapshot[p], events[p], e1[p]);
      }
      if item.path in snapshot {
        StepSettles(hostname, env, unreachable, snapshot[item.path], events, item);
      }
      assert ReadFrom(items[1..], snapshot) by {
        forall k | 0 <= k < |items[1..]|
          ensures items[1..][k].data == Lookup(snapshot, items[1..][k].path)
        {
          assert items[1..][k] == items[k + 1];
        }
      }
      PassSettles(hostname, env, unreachable, snapshot, e1, items[1..]);
      PassFrame(hostname, env, unreachable, e1, items[1..]);
      forall k | 0 <= k < |items| && items[k].path in snapshot
        ensures Settled(hostname, r[items[k].path])
      {
        if k == 0 {
          SettledStable(hostname, e1[item.path], r[item.path]);
        } else {
          assert items[1..][k - 1] == items[k];
        }
      }
    }
  }

  /** One reachable item whose data the current entry extends leaves that
      entry settled. */
  lemma StepSettles(hostname: string, env: HostEnv, unreachable: set<string>,
                    e: Entry, events: map<string, Entry>, item: QueryItem)
    requires item.data == Some(e) && item.path in events && Extends(e, events[item.path])
    requires item.path !in unreachable
    ensures Settled(hostname, PassStep(hostname, env, unreachable, events, item)[item.path])
  {
    var e1 := PassStep(hostname, env, unreachable, events, item);
    if Decide(hostname, e).Execute? {
      assert e1[item.path].summary == e.summary;
      assert HasBlock(e1[item.path].description, hostname);
    } else {
      SettledStable(hostname, e, events[item.path]);
    }
  }

  /** Idempotence: when none of the listed entries is unreachable, a second
      pass over a fresh query of the same paths neither runs a command nor
      changes the store, whatever the host's environment then. */
  lemma GuestIdempotent(hostname: string, env: HostEnv, env2: HostEnv, unreachable: set<string>,
                        unreachable2: set<string>, events: map<string, Entry>, paths: seq<string>)
    requires forall k :: 0 <= k < |paths| ==> paths[k] !in unreachable
    ensures var once := GuestPass(hostname, env, unreachable, events, QueryOf(events, paths));
            GuestPass(hostname, env2, unreachable2, once, QueryOf(once, paths)) == once
  {
    var items := QueryOf(events, paths);
    var once := GuestPass(hostname, env, unreachable, events, items);
    forall p | p in events
      ensures Extends(events[p], events[p])
    {
      assert events[p].description[..|events[p].description|] == events[p].description;
    }
    PassSettles(hostname, env, unreachable, events, events, items);
    PassFrame(hostname, env, unreachable, events, items);
    var items2 := QueryOf(once, paths);
    forall k | 0 <= k < |items2| && items2[k].data.Some?
      ensures Settled(hostname, items2[k].data.value)
    {
      assert items[k].path in events;
    }
    PassSkipsSettled(hostname, env2, unreachable2, once, items2);
  }

  /** The step for an item looks only at the entry under the item's own path. */
  lemma StepLocal(hostname: string, env: HostEnv, unreachable: set<string>,
                  events: map<string, Entry>, events2: map<string, Entry>, item: QueryItem)
    requires item.path in events && item.path in events2 && events[item.path] == events2[item.path]
    ensures PassStep(hostname, env, unreachable, events, item)[item.path]
            == PassStep(hostname, env, unreachable, events2, item)[item.path]
  {
  }

  /** Items with distinct paths read from a store stay read from it past
      their head, whatever the head's own entry became. */
  lemma ReadTail(events: map<string, Entry>, e1: map<string, Entry>, items: seq<QueryItem>)
    requires items != [] && ReadFrom(items, events) && DistinctPaths(items)
    requires e1.Keys == events.Keys
    requires forall p :: p in events && p != items[0].path ==> e1[p] == events[p]
    ensures ReadFrom(items[1..], e1) && DistinctPaths(items[1..])
    ensures items[0].path !in PathsOf(items[1..])
  {
    var rest := items[1..];
    assert forall k :: 0 <= k < |rest| ==> rest[k] == items[k + 1];
    assert forall k :: 0 <= k < |rest| ==> rest[k].path != items[0].path;
  }

  /** Exact effect: over items read from the store with distinct paths, each
      listed entry ends as its own step alone leaves it: with the host's
      answer appended when the entry is a command for this host not yet
      answered and its path is reachable, and unchanged otherwise. */
  lemma {:induction false} PassExact(hostname: string, env: HostEnv, unreachable: set<string>,
                                     events: map<string, Entry>, items: seq<QueryItem>)
    requires ReadFrom(items, events) && DistinctPaths(items)
    ensures var r := GuestPass(hostname, env, unreachable, events, items);
            forall k :: 0 <= k < |items| && items[k].path in events ==>
              r[items[k].path] == PassStep(hostname, env, unreachable, events, items[k])[items[k].path]
    decreases |items|
  {
    if items != [] {
      var item := items[0];
      var rest := items[1..];
      var e1 := PassStep(hostname, env, unreachable, events, item);
      var r := GuestPass(hostname, env, unreachable, events, items);
      assert r == GuestPass(hostname, env, unreachable, e1, rest);
      ReadTail(events, e1, items);
      PassExact(hostname, env, unreachable, e1, rest);
      PassFrame(hostname, env, unreachable, e1, rest);
      forall k | 0 <= k < |items| && items[k].path in events
        ensures r[items[k].path] == PassStep(hostname, env, unreachable, events, items[k])[items[k].path]
      {
        if k == 0 {
        } else {
          assert rest[k - 1] == items[k];
          StepLocal(hostname, env, unreachable, e1, events, items[k]);
        }
      }
    }
  }
}
