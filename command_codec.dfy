/**
 * The command record carried in an entry's summary: the organizer writes the
 * marker and the command text (controller/organizer.go), the guest recognises
 * the marker, trims it, reads an optional `@target:` annotation and splits the
 * rest into a command word and an argument string (guest.go).
 */
module CommandCodec {
  import opened Wrappers
  import opened GoStrings

  /** The marker the guest and the organizer's listing test for. */
  const COMMAND_PREFIX := "Meeting from nobody:"
  /** What the organizer writes in front of the command text, and trims for display. */
  const SUMMARY_PREFIX := "Meeting from nobody: "

  /** Whom a command is for: no annotation (or an empty one), `@*:`, or `@name:`. */
  datatype TargetSpec = Broadcast | Wildcard | Host(name: string)

  /** A decoded summary. `args` is the argument words joined by single spaces,
      as the guest hands them on. */
  datatype CommandRecord = CommandRecord(target: TargetSpec, command: string, args: string)

  // ---------------------------------------------------------------------------
  // Organizer side

  /** The summary of an entry that carries `command`. */
  function Summary(command: string): (r: string)
    ensures IsCommandSummary(r)
    ensures DisplayCommand(r) == command
  {
    assert SUMMARY_PREFIX == COMMAND_PREFIX + " ";
    assert (SUMMARY_PREFIX + command)[..|COMMAND_PREFIX|] == COMMAND_PREFIX;
    SUMMARY_PREFIX + command
  }

  /** The listing's test for a command entry. */
  predicate IsCommandSummary(summary: string) {
    HasPrefix(summary, COMMAND_PREFIX)
  }

  /** The command text the listing shows. */
  function DisplayCommand(summary: string): string {
    TrimPrefix(summary, SUMMARY_PREFIX)
  }

  /** The annotation a target puts in front of the command words. */
  function Annotation(target: TargetSpec): string {
    match target
    case Broadcast => ""
    case Wildcard => "@*:"
    case Host(name) => "@" + name + ":"
  }

  /** The command text an operator types after `exec`: an optional annotation
      glued to the command words, which are joined by single spaces. */
  function CommandText(target: TargetSpec, words: seq<string>): string {
    Annotation(target) + Join(words, " ")
  }

  /** A host target can be written as an annotation that reads back as itself. */
  predicate ValidTarget(target: TargetSpec) {
    target.Host? ==> target.name != "" && target.name != "*" && ':' !in target.name
  }

  /** Words as `strings.Fields` produces them. */
  predicate WellFormedWords(words: seq<string>) {
    forall i :: 0 <= i < |words| ==> |words[i]| > 0 && NoSpace(words[i])
  }

  // ---------------------------------------------------------------------------
  // Guest side

  /** The command line: the summary without the marker and surrounding white space. */
  function CommandLine(summary: string): (r: string)
    ensures |r| <= |summary|
    ensures r == [] || (!IsSpace(r[0]) && !IsSpace(r[|r| - 1]))
  {
    TrimmedRest(summary, COMMAND_PREFIX);
    TrimSpace(TrimPrefix(summary, COMMAND_PREFIX))
  }

  /** The rest of a string after a prefix, trimmed, is no longer than the
      string and has no white space at either end. */
  lemma TrimmedRest(s: string, p: string)
    ensures var r := TrimSpace(TrimPrefix(s, p));
            |r| <= |s| && (r == [] || (!IsSpace(r[0]) && !IsSpace(r[|r| - 1])))
  {
    TrimSpaceEdges(TrimPrefix(s, p));
  }

  /** The raw target host and the command text of a command line. A line that
      starts with `@` and holds a `:` is an annotation; otherwise the target is
      empty and the whole line is the command. */
  function ParseTarget(line: string): (r: (string, string))
    ensures !(HasPrefix(line, "@") && ':' in line) ==> r == ("", line)
    ensures HasPrefix(line, "@") && ':' in line ==> ':' !in r.0 && "@" + r.0 + ":" + r.1 == line
  {
    if HasPrefix(line, "@") then
      var parts := SplitN2(line, ':');
      if |parts| == 2 then
        assert parts[0][0] == line[0] == '@';
        assert parts[0] == "@" + TrimPrefix(parts[0], "@");
        (TrimPrefix(parts[0], "@"), parts[1])
      else ("", line)
    else ("", line)
  }

  /** The targeting mode a raw target stands for. */
  function Classify(target: string): (r: TargetSpec)
    ensures r == Broadcast <==> target == ""
    ensures r == Wildcard <==> target == "*"
    ensures r.Host? ==> r.name == target
  {
    if target == "" then Broadcast
    else if target == "*" then Wildcard
    else Host(target)
  }

  /** The single skip-or-execute rule: broadcast and wildcard are for every
      host, a host target only for the host of that exact name. */
  predicate ShouldExecute(target: TargetSpec, localHost: string)
    ensures ShouldExecute(target, localHost) <==> target in {Broadcast, Wildcard, Host(localHost)}
  {
    match target
    case Broadcast => true
    case Wildcard => true
    case Host(name) => name == localHost
  }

  /** The command word (first field) and the rest of the fields joined by
      single spaces. */
  function SplitCommand(text: string): (r: (string, string))
    ensures NoSpace(r.0) && NoSpace(r.1) == (|Fields(text)| <= 2)
    ensures r.0 == "" <==> Fields(text) == []
    ensures r.0 == "" ==> r.1 == ""
  {
    var fields := Fields(text);
    var command := if |fields| > 0 then fields[0] else "";
    var args := if |fields| > 1 then Join(fields[1..], " ") else "";
    ArgsSpaces(fields);
    (command, args)
  }

  /** Joining the fields after the first holds a space exactly when there are
      at least two of them. */
  lemma ArgsSpaces(fields: seq<string>)
    requires WellFormedWords(fields)
    ensures |fields| > 1 ==> (NoSpace(Join(fields[1..], " ")) <==> |fields| == 2)
  {
    if |fields| > 2 {
      var j := Join(fields[1..], " ");
      assert j == fields[1] + " " + Join(fields[2..], " ") by {
        assert fields[1..][1..] == fields[2..];
      }
      assert j[|fields[1]|] == ' ';
    }
  }

  /** The guest's decoding of a summary; `None` for an entry that is not a
      command entry. */
  function Decode(summary: string): (r: Option<CommandRecord>)
    ensures r.None? <==> !HasPrefix(summary, COMMAND_PREFIX)
  {
    if !HasPrefix(summary, COMMAND_PREFIX) then None
    else
      var (target, text) := ParseTarget(CommandLine(summary));
      var (command, args) := SplitCommand(text);
      Some(CommandRecord(Classify(target), command, args))
  }

  // ---------------------------------------------------------------------------
  // Lemmas

  /** The guest's boolean skip rule agrees with `ShouldExecute`. */
  lemma SkipRule(target: string, localHost: string)
    ensures !ShouldExecute(Classify(target), localHost)
            <==> (target != "" && target != localHost && target != "*")
  {
  }

  /** An annotated command line `@T:rest` is decoded with the target `T` and the
      command and arguments taken from `rest`. */
  lemma DecodeAnnotated(summary: string, target: string, rest: string)
    requires HasPrefix(summary, COMMAND_PREFIX)
    requires ':' !in target
    requires CommandLine(summary) == "@" + target + ":" + rest
    ensures Decode(summary) == Some(CommandRecord(Classify(target), SplitCommand(rest).0, SplitCommand(rest).1))
  {
    var line := CommandLine(summary);
    assert line[..1] == "@";
    assert line[|target| + 1] == ':';
    var r := ParseTarget(line);
    CutUnique("@" + r.0, r.1, "@" + target, rest, ':');
    assert r.0 == ("@" + r.0)[1..] == ("@" + target)[1..] == target;
  }

  /** A command line that starts with `@` but has no `:` is no annotation: the
      target is broadcast and the whole line is the command text. */
  lemma DecodeUnannotated(summary: string)
    requires HasPrefix(summary, COMMAND_PREFIX)
    requires ':' !in CommandLine(summary)
    ensures Decode(summary) == Some(CommandRecord(Broadcast,
                                      SplitCommand(CommandLine(summary)).0,
                                      SplitCommand(CommandLine(summary)).1))
  {
  }

  /** A blank command line gives an empty command and empty arguments. */
  lemma DecodeBlank(summary: string)
    requires HasPrefix(summary, COMMAND_PREFIX)
    requires CommandLine(summary) == ""
    ensures Decode(summary) == Some(CommandRecord(Broadcast, "", ""))
  {
  }

  /** The command line of an organizer-made summary is the command text, when
      that text does not begin or end with white space. */
  lemma {:induction false} CommandLineOfSummary(text: string)
    requires text == [] || (!IsSpace(text[0]) && !IsSpace(text[|text| - 1]))
    ensures CommandLine(Summary(text)) == text
  {
    var s := Summary(text);
    assert s == COMMAND_PREFIX + (" " + text);
    assert TrimPrefix(s, COMMAND_PREFIX) == " " + text;
    TrimLeftSkip(' ', text);
    TrimSpaceKeeps(text);
  }

  /** The command and arguments of joined well-formed words. */
  lemma SplitCommandJoin(words: seq<string>)
    requires WellFormedWords(words)
    ensures SplitCommand(Join(words, " "))
            == (if |words| == 0 then "" else words[0], if |words| <= 1 then "" else Join(words[1..], " "))
  {
    FieldsJoin(words);
  }

  /** Decoding a command entry is parsing its command line. */
  lemma DecodeLine(summary: string)
    requires HasPrefix(summary, COMMAND_PREFIX)
    ensures var (target, text) := ParseTarget(CommandLine(summary));
            Decode(summary) == Some(CommandRecord(Classify(target), SplitCommand(text).0, SplitCommand(text).1))
  {
  }

  /** Round trip: decoding the summary the organizer writes for a target and
      well-formed command words gives back the target, the first word and the
      remaining words joined by single spaces. */
  lemma RoundTrip(target: TargetSpec, words: seq<string>)
    requires ValidTarget(target) && WellFormedWords(words)
    requires target.Broadcast? && |words| > 0 ==> words[0][0] != '@'
    ensures Decode(Summary(CommandText(target, words)))
            == Some(CommandRecord(target,
                                  if |words| == 0 then "" else words[0],
                                  if |words| <= 1 then "" else Join(words[1..], " ")))
  {
    JoinEdges(words, " ");
    if target.Broadcast? {
      assert CommandText(target, words) == Join(words, " ");
      RoundTripBroadcast(words);
    } else {
      var name := if target.Wildcard? then "*" else target.name;
      assert CommandText(target, words) == "@" + name + ":" + Join(words, " ");
      assert Classify(name) == target;
      RoundTripAnnotated(name, words);
    }
  }

  /** The command line of a summary made from words without an annotation
      is the joined words, and it does not start with `@`. */
  lemma BroadcastLine(words: seq<string>)
    requires WellFormedWords(words)
    requires |words| > 0 ==> words[0][0] != '@'
    requires var j := Join(words, " "); |words| > 0 ==> |j| > 0 && j[0] == words[0][0] && j[|j| - 1] == words[|words| - 1][|words[|words| - 1]| - 1]
    ensures CommandLine(Summary(Join(words, " "))) == Join(words, " ")
    ensures ParseTarget(Join(words, " ")) == ("", Join(words, " "))
  {
    var text := Join(words, " ");
    if |words| > 0 {
      assert !IsSpace(words[0][0]);
      assert !IsSpace(words[|words| - 1][|words[|words| - 1]| - 1]);
    }
    CommandLineOfSummary(text);
    assert !HasPrefix(text, "@");
  }

  lemma RoundTripBroadcast(words: seq<string>)
    requires WellFormedWords(words)
    requires |words| > 0 ==> words[0][0] != '@'
    requires var j := Join(words, " "); |words| > 0 ==> |j| > 0 && j[0] == words[0][0] && j[|j| - 1] == words[|words| - 1][|words[|words| - 1]| - 1]
    ensures Decode(Summary(Join(words, " ")))
            == Some(CommandRecord(Broadcast,
                                  if |words| == 0 then "" else words[0],
                                  if |words| <= 1 then "" else Join(words[1..], " ")))
  {
    BroadcastLine(words);
    SplitCommandJoin(words);
    DecodeLine(Summary(Join(words, " ")));
  }

  lemma RoundTripAnnotated(name: string, words: seq<string>)
    requires WellFormedWords(words)
    requires name != "" && ':' !in name
    requires var j := Join(words, " "); |words| > 0 ==> |j| > 0 && j[|j| - 1] == words[|words| - 1][|words[|words| - 1]| - 1]
    ensures Decode(Summary("@" + name + ":" + Join(words, " ")))
            == Some(CommandRecord(Classify(name),
                                  if |words| == 0 then "" else words[0],
                                  if |words| <= 1 then "" else Join(words[1..], " ")))
  {
    var joined := Join(words, " ");
    var text := "@" + name + ":" + joined;
    if |words| > 0 {
      assert text[|text| - 1] == joined[|joined| - 1];
      assert !IsSpace(words[|words| - 1][|words[|words| - 1]| - 1]);
    } else {
      assert text[|text| - 1] == ':';
    }
    CommandLineOfSummary(text);
    SplitCommandJoin(words);
    DecodeAnnotated(Summary(text), name, joined);
  }
}
