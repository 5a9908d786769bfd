/**
 * The per-host output blocks kept in an entry's description: the guest
 * appends one block per host (guest.go), the guest's idempotence test looks
 * for the host's start marker, and the organizer scans the description line by
 * line to list the hosts and to extract each host's output
 * (controller/organizer.go).
 */
module OutputCodec {
  import opened GoStrings

  const START_TAG := "[OUTPUT-"
  const END_TAG := "[/OUTPUT-"

  /** `[OUTPUT-host]` */
  function StartMarker(host: string): string {
    START_TAG + host + "]"
  }

  /** `[/OUTPUT-host]` */
  function EndMarker(host: string): string {
    END_TAG + host + "]"
  }

  /** The description after the guest of `host` has recorded `output`. */
  function AppendBlock(description: string, host: string, output: string): (r: string)
    ensures HasPrefix(r, description)
    ensures HasBlock(r, host)
  {
    var suffix := "\n\n" + StartMarker(host) + "\n" + output + "\n" + EndMarker(host);
    assert (description + suffix)[..|description|] == description;
    ContainsMiddle(description + "\n\n", StartMarker(host), "\n" + output + "\n" + EndMarker(host));
    assert description + "\n\n" + StartMarker(host) + ("\n" + output + "\n" + EndMarker(host))
        == description + suffix;
    description + suffix
  }

  /** The guest's idempotence test: the host's start marker occurs anywhere. */
  predicate HasBlock(description: string, host: string) {
    Contains(description, StartMarker(host))
  }

  /** The guest's test holds exactly when the host's start marker occurs at
      some position of the description, inside a line or not. */
  lemma HasBlockAt(description: string, host: string)
    ensures HasBlock(description, host) <==> exists i :: OccursAt(description, StartMarker(host), i)
  {
    ContainsAt(description, StartMarker(host));
  }

  // ---------------------------------------------------------------------------
  // Listing the hosts (getExecutedHosts)

  /** A line that the host listing counts: starts with `[OUTPUT-`, ends with `]`. */
  predicate IsHostLine(line: string) {
    HasPrefix(line, START_TAG) && HasSuffix(line, "]")
  }

  /** The text between the leading `[OUTPUT-` and the trailing `]`. */
  function HostOf(line: string): string {
    TrimSuffix(TrimPrefix(line, START_TAG), "]")
  }

  /** The hosts of the counted lines, in line order. */
  function HostsOfLines(lines: seq<string>): (r: seq<string>)
    ensures |r| <= |lines|
    decreases |lines|
  {
    if lines == [] then []
    else (if IsHostLine(lines[0]) then [HostOf(lines[0])] else []) + HostsOfLines(lines[1..])
  }

  /** The hosts the organizer considers to have executed a command. */
  function ExecutedHosts(description: string): (r: seq<string>)
    ensures forall h :: h in r ==> HasBlock(description, h)
  {
    ListedLinesOccur(description);
    HostsOfLines(Split(description, '\n'))
  }

  /** The organizer's line scanner. */
  method GetExecutedHosts(description: string) returns (hosts: seq<string>)
    ensures hosts == ExecutedHosts(description)
  {
    hosts := [];
    var lines := Split(description, '\n');
    for i := 0 to |lines|
      invariant hosts == HostsOfLines(lines[..i])
    {
      var line := lines[i];
      HostsOfLinesSnoc(lines, i);
      if HasPrefix(line, START_TAG) && HasSuffix(line, "]") {
        var host := TrimPrefix(line, START_TAG);
        host := TrimSuffix(host, "]");
        hosts := hosts + [host];
      }
    }
    assert lines[..|lines|] == lines;
  }

  // ---------------------------------------------------------------------------
  // Extracting the outputs (extractHostOutputs)

  /** The state of the two-state capture machine: the outputs committed so
      far, the host being captured, whether capturing, and the body buffer. */
  datatype Scanner = Scanner(outputs: map<string, string>, current: string, capturing: bool, buffer: string)

  const IDLE := Scanner(map[], "", false, "")

  /** A captured line is added to the buffer, after a newline separator only
      once the buffer is non-empty. */
  function Written(buffer: string, line: string): (r: string)
    ensures |buffer| > 0 ==> r == buffer + "\n" + line
    ensures |buffer| == 0 ==> r == line
    ensures Split(r, '\n') == (if |buffer| > 0 then Split(buffer, '\n') else []) + Split(line, '\n')
  {
    if |buffer| > 0 then
      SplitAppend(buffer, '\n', line);
      buffer + "\n" + line
    else
      assert buffer + line == line;
      buffer + line
  }

  /** One line of the capture machine. Markers are detected on the trimmed
      line; captured text is the original line. */
  function StepLine(s: Scanner, line: string): (r: Scanner)
    ensures !HasPrefix(TrimSpace(line), END_TAG) ==> r.outputs == s.outputs
    ensures r.outputs != s.outputs ==> s.capturing && s.current != "" && r.outputs == s.outputs[s.current := s.buffer]
    ensures r.capturing <==> HasPrefix(TrimSpace(line), START_TAG) || (s.capturing && !HasPrefix(TrimSpace(line), END_TAG))
  {
    var trimmed := TrimSpace(line);
    StartNotEnd(trimmed);
    if HasPrefix(trimmed, START_TAG) && !HasPrefix(trimmed, END_TAG) then
      s.(current := TrimSuffix(TrimPrefix(trimmed, START_TAG), "]"), capturing := true, buffer := "")
    else if HasPrefix(trimmed, END_TAG) then
      s.(outputs := if s.capturing && s.current != "" then s.outputs[s.current := s.buffer] else s.outputs,
         capturing := false, current := "")
    else if s.capturing then
      s.(buffer := Written(s.buffer, line))
    else
      s
  }

  /** The machine run over a sequence of lines. */
  function ScanLines(s: Scanner, lines: seq<string>): Scanner
    decreases |lines|
  {
    if lines == [] then s else ScanLines(StepLine(s, lines[0]), lines[1..])
  }

  /** The outputs the organizer extracts from a description. */
  function ExtractAll(description: string): (r: map<string, string>)
    ensures forall h :: h in r ==> h != ""
    ensures r != map[] ==> exists line :: line in Split(description, '\n') && HasPrefix(TrimSpace(line), END_TAG)
  {
    ScanKeys(IDLE, Split(description, '\n'));
    CommitNeedsEnd(Split(description, '\n'));
    ScanLines(IDLE, Split(description, '\n')).outputs
  }

  /** The organizer's capture machine. */
  method ExtractHostOutputs(description: string) returns (outputs: map<string, string>)
    ensures outputs == ExtractAll(description)
  {
    outputs := map[];
    var lines := Split(description, '\n');
    var currentHost := "";
    var capturing := false;
    var output := "";
    for i := 0 to |lines|
      invariant ScanLines(Scanner(outputs, currentHost, capturing, output), lines[i..]) == ScanLines(IDLE, lines)
    {
      var line := lines[i];
      assert lines[i..][1..] == lines[i + 1..];
      var trimmedLine := TrimSpace(line);
      if HasPrefix(trimmedLine, START_TAG) && !HasPrefix(trimmedLine, END_TAG) {
        currentHost := TrimPrefix(trimmedLine, START_TAG);
        currentHost := TrimSuffix(currentHost, "]");
        capturing := true;
        output := "";
      } else if HasPrefix(trimmedLine, END_TAG) {
        if capturing && currentHost != "" {
          outputs := outputs[currentHost := output];
        }
        capturing := false;
        currentHost := "";
      } else if capturing {
        if |output| > 0 {
          output := output + "\n";
        }
        output := output + line;
      }
    }
    assert lines[|lines|..] == [];
  }

  /** The buffer after capturing `lines`. */
  function Accumulate(buffer: string, lines: seq<string>): string
    decreases |lines|
  {
    if lines == [] then buffer else Accumulate(Written(buffer, lines[0]), lines[1..])
  }

  // ---------------------------------------------------------------------------
  // Lemmas: markers

  /** An empty description lists no host and holds no output. */
  lemma EmptyDescription()
    ensures ExecutedHosts("") == [] && ExtractAll("") == map[]
  {
    assert Split("", '\n') == [""];
    assert HostsOfLines([""]) == [];
    assert ScanLines(IDLE, [""]) == StepLine(IDLE, "") by {
      assert [""][1..] == [];
    }
  }

  /** Neither marker is changed by `TrimSpace`. */
  lemma MarkersTrimmed(host: string)
    ensures TrimSpace(StartMarker(host)) == StartMarker(host)
    ensures TrimSpace(EndMarker(host)) == EndMarker(host)
  {
    TrimSpaceKeeps(StartMarker(host));
    TrimSpaceKeeps(EndMarker(host));
  }

  /** A start marker is counted by the listing and names its host; an end
      marker is never counted. */
  lemma MarkerLines(host: string)
    ensures IsHostLine(StartMarker(host)) && HostOf(StartMarker(host)) == host
    ensures !IsHostLine(EndMarker(host))
    ensures HasPrefix(StartMarker(host), START_TAG) && !HasPrefix(StartMarker(host), END_TAG)
    ensures HasPrefix(EndMarker(host), END_TAG) && !HasPrefix(EndMarker(host), START_TAG)
  {
    var m := StartMarker(host);
    assert m[..|START_TAG|] == START_TAG;
    assert m[|START_TAG|..] == host + "]";
    assert (host + "]")[..|host|] == host;
    assert EndMarker(host)[1] == '/';
    assert m[1] == 'O';
  }

  /** Every counted line is the start marker of the host it names. */
  lemma HostLineIsMarker(line: string)
    requires IsHostLine(line)
    ensures line == StartMarker(HostOf(line))
  {
    var rest := TrimPrefix(line, START_TAG);
    assert line[|line| - 1] == ']';
    assert START_TAG[|START_TAG| - 1] == '-';
    assert |line| > |START_TAG|;
    assert rest == line[|START_TAG|..];
    assert HasSuffix(rest, "]");
  }

  // ---------------------------------------------------------------------------
  // Lemmas: host listing

  /** The host listing of a concatenation of line sequences. */
  lemma {:induction false} HostsOfLinesAppend(a: seq<string>, b: seq<string>)
    ensures HostsOfLines(a + b) == HostsOfLines(a) + HostsOfLines(b)
    decreases |a|
  {
    if a != [] {
      var head := if IsHostLine(a[0]) then [HostOf(a[0])] else [];
      assert (a + b)[0] == a[0];
      assert (a + b)[1..] == a[1..] + b;
      assert HostsOfLines(a + b) == head + HostsOfLines(a[1..] + b);
      assert HostsOfLines(a) == head + HostsOfLines(a[1..]);
      HostsOfLinesAppend(a[1..], b);
    } else {
      assert a + b == b;
    }
  }

  /** The hosts of a prefix of the lines grow by at most the next line's host. */
  lemma HostsOfLinesSnoc(lines: seq<string>, i: nat)
    requires i < |lines|
    ensures HostsOfLines(lines[..i + 1])
            == HostsOfLines(lines[..i]) + (if IsHostLine(lines[i]) then [HostOf(lines[i])] else [])
  {
    assert lines[..i + 1] == lines[..i] + [lines[i]];
    HostsOfLinesAppend(lines[..i], [lines[i]]);
    assert [lines[i]][1..] == [];
  }

  /** Every host the listing reports stands, as a start marker, on a line of
      its own. */
  lemma {:induction false} HostsOfLinesFrom(lines: seq<string>, host: string)
    requires host in HostsOfLines(lines)
    ensures exists i :: 0 <= i < |lines| && lines[i] == StartMarker(host)
    decreases |lines|
  {
    if IsHostLine(lines[0]) && host == HostOf(lines[0]) {
      HostLineIsMarker(lines[0]);
    } else {
      HostsOfLinesFrom(lines[1..], host);
      var i :| 0 <= i < |lines[1..]| && lines[1..][i] == StartMarker(host);
      assert lines[i + 1] == StartMarker(host);
    }
  }

  /** Every piece of a split occurs in the split string, the first one at its start. */
  lemma {:induction false} SplitPiecesOccur(s: string, sep: char)
    ensures HasPrefix(s, Split(s, sep)[0])
    ensures forall i :: 0 <= i < |Split(s, sep)| ==> Contains(s, Split(s, sep)[i])
    decreases |s|
  {
    if s != [] {
      var rest := Split(s[1..], sep);
      SplitPiecesOccur(s[1..], sep);
      var r := Split(s, sep);
      forall i | 0 <= i < |r|
        ensures Contains(s, r[i])
      {
        if s[0] == sep {
          if i > 0 {
            assert r[i] == rest[i - 1];
          }
        } else {
          if i == 0 {
            assert r[0] == [s[0]] + rest[0];
            assert s == [s[0]] + s[1..];
            assert s[..|r[0]|] == [s[0]] + s[1..][..|rest[0]|];
          } else {
            assert r[i] == rest[i];
          }
        }
      }
      if s[0] != sep {
        assert s == [s[0]] + s[1..];
        assert s[..|r[0]|] == [s[0]] + s[1..][..|rest[0]|];
      }
    }
  }

  /** The listing and the guest's idempotence test agree: a host the listing
      reports has a start marker in the description. */
  lemma ListedLinesOccur(description: string)
    ensures forall h :: h in HostsOfLines(Split(description, '\n')) ==> HasBlock(description, h)
  {
    var lines := Split(description, '\n');
    forall h | h in HostsOfLines(lines)
      ensures HasBlock(description, h)
    {
      HostsOfLinesFrom(lines, h);
      var i :| 0 <= i < |lines| && lines[i] == StartMarker(h);
      SplitPiecesOccur(description, '\n');
    }
  }

  /** The lines of a description with one more block. */
  lemma BlockLines(description: string, host: string, output: string)
    requires '\n' !in host
    ensures Split(AppendBlock(description, host, output), '\n')
            == Split(description, '\n') + ["", StartMarker(host)] + Split(output, '\n') + [EndMarker(host)]
  {
    var start, end := StartMarker(host), EndMarker(host);
    assert '\n' !in start && '\n' !in end;
    BlockText(description, host, output);
    FramedLines(description, start, output, end);
  }

  /** The text of a description with one more block, grouped line by line. */
  lemma BlockText(description: string, host: string, output: string)
    ensures AppendBlock(description, host, output)
            == description + ['\n'] + (['\n'] + (StartMarker(host) + ['\n'] + (output + ['\n'] + EndMarker(host))))
  {
  }

  /** The line split of `d`, a blank line, `start`, `body` and `end`. */
  lemma FramedLines(d: string, start: string, body: string, end: string)
    requires '\n' !in start && '\n' !in end
    ensures Split(d + ['\n'] + (['\n'] + (start + ['\n'] + (body + ['\n'] + end))), '\n')
            == Split(d, '\n') + ["", start] + Split(body, '\n') + [end]
  {
    var x2 := start + ['\n'] + (body + ['\n'] + end);
    FramedTail(start, body, end);
    BlankLine(x2);
    SplitAppend(d, '\n', ['\n'] + x2);
    Regroup(Split(d, '\n'), "", start, Split(body, '\n'), end);
  }

  /** Associativity of concatenation, for a run followed by two, a run and one more elements. */
  lemma AppendAssoc<T>(a: seq<T>, x: T, y: T, b: seq<T>, z: T)
    ensures a + [x, y] + b + [z] == a + ([x, y] + b + [z])
  {
  }

  /** Associativity of concatenation, regrouping nested single elements into one run. */
  lemma Regroup<T>(a: seq<T>, x: T, y: T, b: seq<T>, z: T)
    ensures a + ([x] + ([y] + b + [z])) == a + [x, y] + b + [z]
  {
  }

  /** A leading line break is an empty first piece. */
  lemma BlankLine(rest: string)
    ensures Split(['\n'] + rest, '\n') == [[]] + Split(rest, '\n')
  {
    assert (['\n'] + rest)[1..] == rest;
  }

  /** The line split of `start`, `body` and `end`. */
  lemma FramedTail(start: string, body: string, end: string)
    requires '\n' !in start && '\n' !in end
    ensures Split(start + ['\n'] + (body + ['\n'] + end), '\n') == [start] + Split(body, '\n') + [end]
  {
    SplitAppend(body, '\n', end);
    SplitNoSep(end, '\n');
    LeadingLine(start, body + ['\n'] + end);
  }

  /** A first line without a line break is the first piece. */
  lemma LeadingLine(line: string, rest: string)
    requires '\n' !in line
    ensures Split(line + ['\n'] + rest, '\n') == [line] + Split(rest, '\n')
  {
    SplitAppend(line, '\n', rest);
    SplitNoSep(line, '\n');
  }

  /** Appending a block adds its host to the listing, after the hosts already
      listed and before any counted lines of the output itself. */
  lemma ExecutedHostsAppend(description: string, host: string, output: string)
    requires '\n' !in host
    ensures ExecutedHosts(AppendBlock(description, host, output))
            == ExecutedHosts(description) + [host] + ExecutedHosts(output)
  {
    BlockLines(description, host, output);
    MarkerLines(host);
    var a := Split(description, '\n');
    var o := Split(output, '\n');
    HostsOfLinesAppend(a + ["", StartMarker(host)] + o, [EndMarker(host)]);
    HostsOfLinesAppend(a + ["", StartMarker(host)], o);
    HostsOfLinesAppend(a, ["", StartMarker(host)]);
    assert HostsOfLines(["", StartMarker(host)]) == [host];
    assert HostsOfLines([EndMarker(host)]) == [];
  }

  // ---------------------------------------------------------------------------
  // Lemmas: the capture machine

  /** Neither marker after trimming. */
  predicate IsMarkerLine(line: string) {
    HasPrefix(TrimSpace(line), START_TAG) || HasPrefix(TrimSpace(line), END_TAG)
  }

  /** An output that reads back unchanged: it does not begin with a newline
      and no line of it looks like a marker once trimmed. */
  predicate BodyOk(output: string) {
    (output == [] || output[0] != '\n')
    && forall line :: line in Split(output, '\n') ==> !IsMarkerLine(line)
  }

  /** Running the machine over two line sequences in turn. */
  lemma {:induction false} ScanLinesAppend(s: Scanner, a: seq<string>, b: seq<string>)
    ensures ScanLines(s, a + b) == ScanLines(ScanLines(s, a), b)
    decreases |a|
  {
    if a != [] {
      var t := StepLine(s, a[0]);
      assert a + b == [a[0]] + (a[1..] + b);
      assert a == [a[0]] + a[1..];
      ScanCons(s, a[0], a[1..] + b);
      ScanCons(s, a[0], a[1..]);
      ScanLinesAppend(t, a[1..], b);
    } else {
      assert a + b == b;
    }
  }

  /** An end marker seen while idle commits nothing and leaves the machine idle. */
  lemma EndWhileIdle(s: Scanner, line: string)
    requires !(s.capturing && s.current != "") && HasPrefix(TrimSpace(line), END_TAG)
    ensures StepLine(s, line).outputs == s.outputs
    ensures !StepLine(s, line).capturing && StepLine(s, line).current == ""
  {
    StartNotEnd(TrimSpace(line));
  }

  /** An end marker commits the capture in progress whatever host it names:
      the end marker of another host closes the block too. */
  lemma EndClosesAnyCapture(s: Scanner, other: string)
    requires s.capturing && s.current != ""
    ensures StepLine(s, EndMarker(other)) == Scanner(s.outputs[s.current := s.buffer], "", false, s.buffer)
  {
    MarkersTrimmed(other);
    MarkerLines(other);
  }

  /** A start marker empties the buffer and replaces the current host,
      whatever was being captured: the state after it depends only on the
      outputs committed before. */
  lemma StartResets(s: Scanner, s2: Scanner, line: string)
    requires HasPrefix(TrimSpace(line), START_TAG)
    requires s.outputs == s2.outputs
    ensures StepLine(s, line) == StepLine(s2, line)
    ensures StepLine(s, line) == Scanner(s.outputs, TrimSuffix(TrimPrefix(TrimSpace(line), START_TAG), "]"), true, "")
  {
    StartNotEnd(TrimSpace(line));
  }

  /** The two tags differ in their second character: a line cannot start with both. */
  lemma StartNotEnd(t: string)
    ensures HasPrefix(t, START_TAG) ==> !HasPrefix(t, END_TAG)
    ensures HasPrefix(t, END_TAG) ==> !HasPrefix(t, START_TAG)
  {
    if HasPrefix(t, START_TAG) {
      assert t[1] == START_TAG[1] == 'O';
    }
    if HasPrefix(t, END_TAG) {
      assert t[1] == END_TAG[1] == '/';
    }
  }

  /** While capturing, lines that are not markers only grow the buffer. */
  lemma {:induction false} CaptureLines(s: Scanner, lines: seq<string>)
    requires s.capturing
    requires forall line :: line in lines ==> !IsMarkerLine(line)
    ensures ScanLines(s, lines) == s.(buffer := Accumulate(s.buffer, lines))
    decreases |lines|
  {
    if lines != [] {
      assert lines[0] in lines;
      assert forall line :: line in lines[1..] ==> line in lines;
      CaptureLines(StepLine(s, lines[0]), lines[1..]);
    }
  }

  /** The machine never commits an output under an empty host name. */
  lemma {:induction false} ScanKeys(s: Scanner, lines: seq<string>)
    requires forall h :: h in s.outputs ==> h != ""
    ensures forall h :: h in ScanLines(s, lines).outputs ==> h != ""
    decreases |lines|
  {
    if lines != [] {
      ScanKeys(StepLine(s, lines[0]), lines[1..]);
    }
  }

  /** Outputs are committed only at end-marker lines. */
  lemma CommitNeedsEnd(lines: seq<string>)
    ensures ScanLines(IDLE, lines).outputs != map[] ==> exists line :: line in lines && HasPrefix(TrimSpace(line), END_TAG)
  {
    if forall line :: line in lines ==> !HasPrefix(TrimSpace(line), END_TAG) {
      NoEndNoCommit(IDLE, lines);
    }
  }

  /** Without an end marker nothing is committed. */
  lemma {:induction false} NoEndNoCommit(s: Scanner, lines: seq<string>)
    requires forall line :: line in lines ==> !HasPrefix(TrimSpace(line), END_TAG)
    ensures ScanLines(s, lines).outputs == s.outputs
    decreases |lines|
  {
    if lines != [] {
      assert lines[0] in lines;
      assert forall line :: line in lines[1..] ==> line in lines;
      NoEndNoCommit(StepLine(s, lines[0]), lines[1..]);
    }
  }

  /** Blank lines at the start of a capture leave no trace: the separator is
      written only once the buffer holds something. */
  lemma {:induction false} LeadingBlanksDropped(blanks: nat, lines: seq<string>)
    ensures Accumulate("", seq(blanks, _ => "") + lines) == Accumulate("", lines)
    decreases blanks
  {
    if blanks > 0 {
      var rest := seq(blanks - 1, _ => "");
      assert seq(blanks, _ => "") + lines == [""] + (rest + lines);
      assert Written("", "") == "";
      assert ([""] + (rest + lines))[1..] == rest + lines;
      LeadingBlanksDropped(blanks - 1, lines);
    } else {
      assert seq(blanks, _ => "") + lines == lines;
    }
  }

  /** Once the buffer is non-empty, capturing joins the lines with newlines. */
  lemma {:induction false} AccumulateJoin(buffer: string, lines: seq<string>)
    requires |buffer| > 0 && |lines| > 0
    ensures Accumulate(buffer, lines) == buffer + "\n" + Join(lines, "\n")
    decreases |lines|
  {
    if |lines| > 1 {
      AccumulateJoin(buffer + "\n" + lines[0], lines[1..]);
      assert Join(lines, "\n") == lines[0] + "\n" + Join(lines[1..], "\n");
    }
  }

  /** Capturing the lines of an output that does not begin with a newline
      rebuilds the output exactly. */
  lemma AccumulateSplit(output: string)
    requires output == [] || output[0] != '\n'
    ensures Accumulate("", Split(output, '\n')) == output
  {
    var lines := Split(output, '\n');
    JoinSplit(output, '\n');
    if output == [] {
      assert lines == [[]];
    } else {
      var rest := Split(output[1..], '\n');
      assert lines == [[output[0]] + rest[0]] + rest[1..];
      assert |lines[0]| > 0;
      if |lines| > 1 {
        AccumulateJoin(lines[0], lines[1..]);
        assert Join(lines, "\n") == lines[0] + "\n" + Join(lines[1..], "\n");
      }
    }
  }

  /** A blank line commits nothing. */
  lemma BlankStep(s: Scanner)
    ensures StepLine(s, "").outputs == s.outputs
  {
    assert TrimSpace("") == "";
  }

  /** The start marker of `host` begins a fresh capture for `host`. */
  lemma StartStep(s: Scanner, host: string)
    ensures StepLine(s, StartMarker(host)) == Scanner(s.outputs, host, true, "")
  {
    MarkersTrimmed(host);
    MarkerLines(host);
    StartResets(s, s, StartMarker(host));
  }

  /** The end marker of the host being captured commits the buffer. */
  lemma EndStep(s: Scanner, host: string)
    requires s.capturing && s.current == host && host != ""
    ensures StepLine(s, EndMarker(host)) == Scanner(s.outputs[host := s.buffer], "", false, s.buffer)
  {
    MarkersTrimmed(host);
    MarkerLines(host);
  }

  /** Running the machine over a first line and the rest. */
  lemma ScanCons(s: Scanner, line: string, rest: seq<string>)
    ensures ScanLines(s, [line] + rest) == ScanLines(StepLine(s, line), rest)
  {
    assert ([line] + rest)[1..] == rest;
  }

  /** The two lines that open a block. */
  lemma OpenBlock(s: Scanner, host: string)
    ensures ScanLines(s, ["", StartMarker(host)]) == Scanner(s.outputs, host, true, "")
  {
    var s1 := StepLine(s, "");
    BlankStep(s);
    StartStep(s1, host);
    ScanCons(s, "", [StartMarker(host)]);
    ScanCons(s1, StartMarker(host), []);
    assert ["", StartMarker(host)] == [""] + [StartMarker(host)];
    assert [StartMarker(host)] == [StartMarker(host)] + [];
  }

  /** Running the machine over three consecutive parts, the last a single line. */
  lemma ScanThree(s: Scanner, first: seq<string>, middle: seq<string>, last: string)
    ensures ScanLines(s, first + middle + [last]) == StepLine(ScanLines(ScanLines(s, first), middle), last)
  {
    ScanLinesAppend(s, first, middle);
    ScanLinesAppend(s, first + middle, [last]);
    ScanCons(ScanLines(s, first + middle), last, []);
    assert [last] == [last] + [];
  }

  /** From any state, the lines of one appended block commit exactly that
      host's output and leave the machine idle. */
  lemma ScanBlock(s: Scanner, host: string, output: string)
    requires host != "" && BodyOk(output)
    ensures ScanLines(s, ["", StartMarker(host)] + Split(output, '\n') + [EndMarker(host)])
            == Scanner(s.outputs[host := output], "", false, output)
  {
    var lines := Split(output, '\n');
    var s2 := Scanner(s.outputs, host, true, "");
    OpenBlock(s, host);
    CaptureLines(s2, lines);
    AccumulateSplit(output);
    var s3 := Scanner(s.outputs, host, true, output);
    assert ScanLines(s2, lines) == s3;
    EndStep(s3, host);
    ScanThree(s, ["", StartMarker(host)], lines, EndMarker(host));
  }

  /** Appending a block maps its host to its output and leaves every other
      extracted output as it was. */
  lemma ExtractAppend(description: string, host: string, output: string)
    requires host != "" && '\n' !in host && BodyOk(output)
    ensures ExtractAll(AppendBlock(description, host, output)) == ExtractAll(description)[host := output]
  {
    BlockLines(description, host, output);
    var a := Split(description, '\n');
    var block := ["", StartMarker(host)] + Split(output, '\n') + [EndMarker(host)];
    AppendAssoc(a, "", StartMarker(host), Split(output, '\n'), EndMarker(host));
    ScanLinesAppend(IDLE, a, block);
    ScanBlock(ScanLines(IDLE, a), host, output);
  }

  /** A start marker with no end before the next start loses its capture. */
  lemma UnterminatedDiscarded(s: Scanner, first: string, lines: seq<string>, host: string, output: string)
    requires host != "" && BodyOk(output)
    requires forall line :: line in lines ==> !HasPrefix(TrimSpace(line), END_TAG)
    ensures ScanLines(s, [StartMarker(first)] + lines + ["", StartMarker(host)] + Split(output, '\n') + [EndMarker(host)]).outputs
            == s.outputs[host := output]
  {
    var head := [StartMarker(first)] + lines;
    var block := ["", StartMarker(host)] + Split(output, '\n') + [EndMarker(host)];
    assert [StartMarker(first)] + lines + ["", StartMarker(host)] + Split(output, '\n') + [EndMarker(host)] == head + block;
    HeadNoEnd(first, lines);
    NoEndNoCommit(s, head);
    ScanLinesAppend(s, head, block);
    ScanBlock(ScanLines(s, head), host, output);
  }

  /** A start marker followed by lines without an end marker holds no end marker. */
  lemma HeadNoEnd(first: string, lines: seq<string>)
    requires forall line :: line in lines ==> !HasPrefix(TrimSpace(line), END_TAG)
    ensures forall line :: line in [StartMarker(first)] + lines ==> !HasPrefix(TrimSpace(line), END_TAG)
  {
    MarkersTrimmed(first);
    MarkerLines(first);
    forall line | line in [StartMarker(first)] + lines
      ensures !HasPrefix(TrimSpace(line), END_TAG)
    {
      if line != StartMarker(first) {
        assert line in lines;
      }
    }
  }

  /** No line of a well-formed output is counted by the listing. */
  lemma {:induction false} BodyHostsEmpty(lines: seq<string>)
    requires forall line :: line in lines ==> !IsMarkerLine(line)
    ensures HostsOfLines(lines) == []
    decreases |lines|
  {
    if lines != [] {
      assert lines[0] in lines;
      if IsHostLine(lines[0]) {
        PrefixSurvivesTrim(lines[0], START_TAG);
      }
      assert forall line :: line in lines[1..] ==> line in lines;
      BodyHostsEmpty(lines[1..]);
    }
  }

  // ---------------------------------------------------------------------------
  // Round trip over several blocks

  /** One host's recorded output. */
  datatype Block = Block(host: string, body: string)

  /** The description after the blocks are appended in order. */
  function AppendAll(description: string, blocks: seq<Block>): string
    decreases |blocks|
  {
    if blocks == [] then description
    else
      var last := blocks[|blocks| - 1];
      AppendBlock(AppendAll(description, blocks[..|blocks| - 1]), last.host, last.body)
  }

  /** `outputs` with each block's host mapped to its body, later blocks winning. */
  function Overlay(outputs: map<string, string>, blocks: seq<Block>): map<string, string>
    decreases |blocks|
  {
    if blocks == [] then outputs
    else
      var last := blocks[|blocks| - 1];
      Overlay(outputs, blocks[..|blocks| - 1])[last.host := last.body]
  }

  /** The hosts of the blocks, in order. */
  function HostsOf(blocks: seq<Block>): (r: seq<string>)
    ensures |r| == |blocks|
    ensures forall i :: 0 <= i < |blocks| ==> r[i] == blocks[i].host
  {
    seq(|blocks|, i requires 0 <= i < |blocks| => blocks[i].host)
  }

  /** The hosts of the blocks, as a set. */
  function HostSet(blocks: seq<Block>): set<string> {
    set i | 0 <= i < |blocks| :: blocks[i].host
  }

  /** Blocks as a guest would write them and read back unchanged. */
  predicate WellFormedBlocks(blocks: seq<Block>) {
    forall i :: 0 <= i < |blocks| ==> blocks[i].host != "" && '\n' !in blocks[i].host && BodyOk(blocks[i].body)
  }

  /** Distinct hosts. */
  predicate DistinctHosts(blocks: seq<Block>) {
    forall i, j :: 0 <= i < j < |blocks| ==> blocks[i].host != blocks[j].host
  }

  /** Dropping the last block keeps the blocks well formed. */
  lemma WellFormedInit(blocks: seq<Block>)
    requires |blocks| > 0 && WellFormedBlocks(blocks)
    ensures WellFormedBlocks(blocks[..|blocks| - 1])
  {
    var init := blocks[..|blocks| - 1];
    forall i | 0 <= i < |init|
      ensures init[i].host != "" && '\n' !in init[i].host && BodyOk(init[i].body)
    {
      assert init[i] == blocks[i];
    }
  }

  /** Appending well-formed blocks to any description: the extracted outputs
      are the old ones overlaid with the blocks. */
  lemma {:induction false} ExtractAllReadBack(description: string, blocks: seq<Block>)
    requires WellFormedBlocks(blocks)
    ensures ExtractAll(AppendAll(description, blocks)) == Overlay(ExtractAll(description), blocks)
    decreases |blocks|
  {
    if blocks != [] {
      var init := blocks[..|blocks| - 1];
      var last := blocks[|blocks| - 1];
      WellFormedInit(blocks);
      ExtractAllReadBack(description, init);
      ExtractAppend(AppendAll(description, init), last.host, last.body);
    }
  }

  /** Appending well-formed blocks to any description: the listing is the old
      listing followed by the blocks' hosts in append order. */
  lemma {:induction false} ListAllReadBack(description: string, blocks: seq<Block>)
    requires WellFormedBlocks(blocks)
    ensures ExecutedHosts(AppendAll(description, blocks)) == ExecutedHosts(description) + HostsOf(blocks)
    decreases |blocks|
  {
    if blocks != [] {
      var init := blocks[..|blocks| - 1];
      var last := blocks[|blocks| - 1];
      WellFormedInit(blocks);
      ListAllReadBack(description, init);
      ExecutedHostsAppend(AppendAll(description, init), last.host, last.body);
      BodyHostsEmpty(Split(last.body, '\n'));
      assert HostsOf(blocks) == HostsOf(init) + [last.host];
    }
  }

  /** Dropping the last block keeps the hosts distinct. */
  lemma DistinctInit(blocks: seq<Block>)
    requires |blocks| > 0 && DistinctHosts(blocks)
    ensures DistinctHosts(blocks[..|blocks| - 1])
  {
    var init := blocks[..|blocks| - 1];
    forall i, j | 0 <= i < j < |init|
      ensures init[i].host != init[j].host
    {
      assert init[i] == blocks[i] && init[j] == blocks[j];
    }
  }

  /** The host set grows by the last block's host. */
  lemma HostSetLast(blocks: seq<Block>)
    requires |blocks| > 0
    ensures HostSet(blocks) == HostSet(blocks[..|blocks| - 1]) + {blocks[|blocks| - 1].host}
  {
    var init := blocks[..|blocks| - 1];
    forall h | h in HostSet(blocks)
      ensures h in HostSet(init) + {blocks[|blocks| - 1].host}
    {
      var i :| 0 <= i < |blocks| && blocks[i].host == h;
      if i < |blocks| - 1 {
        assert init[i].host == h;
      }
    }
    forall h | h in HostSet(init)
      ensures h in HostSet(blocks)
    {
      var i :| 0 <= i < |init| && init[i].host == h;
      assert blocks[i].host == h;
    }
  }

  /** With distinct hosts, every block's host maps to exactly its body, and
      no other key changes. */
  lemma {:induction false} OverlayDistinct(outputs: map<string, string>, blocks: seq<Block>)
    requires DistinctHosts(blocks)
    ensures forall i :: 0 <= i < |blocks| ==>
              blocks[i].host in Overlay(outputs, blocks) && Overlay(outputs, blocks)[blocks[i].host] == blocks[i].body
    ensures Overlay(outputs, blocks).Keys == outputs.Keys + HostSet(blocks)
    ensures forall h :: h in outputs && h !in HostSet(blocks) ==> Overlay(outputs, blocks)[h] == outputs[h]
    decreases |blocks|
  {
    if blocks != [] {
      var init := blocks[..|blocks| - 1];
      var last := blocks[|blocks| - 1];
      DistinctInit(blocks);
      OverlayDistinct(outputs, init);
      HostSetLast(blocks);
      var m := Overlay(outputs, blocks);
      assert m == Overlay(outputs, init)[last.host := last.body];
      forall i | 0 <= i < |blocks|
        ensures blocks[i].host in m && m[blocks[i].host] == blocks[i].body
      {
        if i < |blocks| - 1 {
          assert init[i] == blocks[i];
        }
      }
    }
  }

  /** The outputs read back from a fresh entry's description after blocks
      for distinct hosts are appended: exactly those hosts, each with its body. */
  lemma ExtractFresh(blocks: seq<Block>)
    requires WellFormedBlocks(blocks) && DistinctHosts(blocks)
    ensures var outputs := ExtractAll(AppendAll("", blocks));
            outputs.Keys == HostSet(blocks)
            && forall i :: 0 <= i < |blocks| ==> outputs[blocks[i].host] == blocks[i].body
  {
    ExtractAllReadBack("", blocks);
    EmptyDescription();
    OverlayFresh(blocks);
  }

  /** Overlaying blocks with distinct hosts on no outputs at all. */
  lemma OverlayFresh(blocks: seq<Block>)
    requires DistinctHosts(blocks)
    ensures var outputs := Overlay(map[], blocks);
            outputs.Keys == HostSet(blocks)
            && forall i :: 0 <= i < |blocks| ==> outputs[blocks[i].host] == blocks[i].body
  {
    var none: map<string, string> := map[];
    OverlayDistinct(none, blocks);
    assert none.Keys + HostSet(blocks) == HostSet(blocks);
  }

  /** The hosts listed for a fresh entry's description after blocks are
      appended: the blocks' hosts in append order. */
  lemma ListFresh(blocks: seq<Block>)
    requires WellFormedBlocks(blocks)
    ensures ExecutedHosts(AppendAll("", blocks)) == HostsOf(blocks)
  {
    ListAllReadBack("", blocks);
    EmptyDescription();
    assert [] + HostsOf(blocks) == HostsOf(blocks);
  }

  /** The round trip the organizer relies on: a fresh entry's description
      (empty, as created) with well-formed blocks for distinct hosts appended
      extracts to exactly those hosts and bodies, and lists the hosts in
      append order. */
  lemma RoundTripFresh(blocks: seq<Block>)
    requires WellFormedBlocks(blocks) && DistinctHosts(blocks)
    ensures var outputs := ExtractAll(AppendAll("", blocks));
            outputs.Keys == HostSet(blocks)
            && forall i :: 0 <= i < |blocks| ==> outputs[blocks[i].host] == blocks[i].body
    ensures ExecutedHosts(AppendAll("", blocks)) == HostsOf(blocks)
  {
    ExtractFresh(blocks);
    ListFresh(blocks);
  }
}
