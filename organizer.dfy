/**
 * The organizer's console (controller/organizer.go): it creates command
 * entries, lists them with their execution status, shows one entry's
 * outputs, and clears the entries some host has answered. The console's own
 * input and output are not modelled; every operation works on the result of
 * a calendar query, and the listing and the outputs are returned as values.
 */
module Organizer {
  import opened Wrappers
  import opened GoStrings
  import opened CommandCodec
  import opened OutputCodec
  import opened Calendar

  // ---------------------------------------------------------------------------
  // Reading a stored description

  /** `strings.ReplaceAll(s, "\\n", "\n")`: every backslash-n pair, scanning
      from the left without overlap, becomes a line break. */
  function Unescape(s: string): (r: string)
    ensures |r| <= |s|
    decreases |s|
  {
    if |s| >= 2 && s[0] == '\\' && s[1] == 'n' then "\n" + Unescape(s[2..])
    else if s == [] then []
    else [s[0]] + Unescape(s[1..])
  }

  /** Text without a backslash is read back unchanged. */
  lemma {:induction false} UnescapePlain(s: string)
    requires '\\' !in s
    ensures Unescape(s) == s
    decreases |s|
  {
    if s != [] {
      assert s[0] != '\\';
      assert '\\' !in s[1..];
      UnescapePlain(s[1..]);
      assert s == [s[0]] + s[1..];
    }
  }

  /** Every backslash-n pair is replaced; the result holds one line break per
      pair and the other characters in order. */
  lemma UnescapePair(a: string, b: string)
    requires '\\' !in a
    ensures Unescape(a + "\\n" + b) == a + "\n" + Unescape(b)
    decreases |a|
  {
    if a == [] {
      assert a + "\\n" + b == "\\n" + b;
      assert ("\\n" + b)[2..] == b;
    } else {
      assert (a + "\\n" + b)[0] == a[0] != '\\';
      assert (a + "\\n" + b)[1..] == a[1..] + "\\n" + b;
      assert '\\' !in a[1..];
      UnescapePair(a[1..], b);
      assert a == [a[0]] + a[1..];
    }
  }

  // ---------------------------------------------------------------------------
  // create

  /** What the confirmation names: the text up to the first `:` of a command
      that starts with `@`, or no one in particular (all hosts). */
  function Audience(command: string): (r: Option<string>)
    ensures r.None? <==> !HasPrefix(command, "@")
    ensures r.Some? ==> HasPrefix(command, r.value) && HasPrefix(r.value, "@")
    ensures r.Some? ==> ':' !in r.value && (r.value == command || HasPrefix(command, r.value + ":"))
  {
    if HasPrefix(command, "@") then
      var parts := SplitN2(command, ':');
      if |parts| == 2 then
        CutPrefixes(parts[0], parts[1], ':', command);
        Some(parts[0])
      else Some(parts[0])
    else None
  }

  /** The text before a cut is a prefix of the whole, and so is that text
      with the separator; it starts as the whole does. */
  lemma CutPrefixes(a: string, b: string, sep: char, s: string)
    requires s == a + [sep] + b && HasPrefix(s, "@") && sep != '@'
    ensures HasPrefix(s, a) && HasPrefix(s, a + [sep]) && HasPrefix(a, "@")
  {
    assert s[..|a|] == a;
    assert s[..|a| + 1] == a + [sep];
    assert s[0] == '@';
    assert a != [] && a[0] == s[0];
    assert a[..1] == "@";
  }

  /** `path.Join(calendarPath, uid + ".ics")` for a calendar path that is
      clean and neither `/` nor `.`, and a UID that holds no `/`. */
  function EventPath(calendarPath: string, uid: string): (r: string)
    ensures HasPrefix(r, calendarPath + "/") && HasSuffix(r, ".ics")
    ensures |r| == |calendarPath| + |uid| + 5
    ensures r[|calendarPath| + 1..|r| - 4] == uid
  {
    var r := calendarPath + "/" + uid + ".ics";
    assert r[..|calendarPath| + 1] == calendarPath + "/";
    assert r[|r| - 4..] == ".ics";
    assert r[|calendarPath| + 1..|r| - 4] == uid;
    r
  }

  /** The entry a new command is stored as: the command after the marker, and
      an empty description. */
  function NewEntry(uid: string, command: string): (e: Entry)
    ensures IsCommandSummary(e.summary) && DisplayCommand(e.summary) == command
    ensures ExecutedHosts(e.description) == [] && ExtractAll(e.description) == map[]
  {
    EmptyDescription();
    Entry(uid, Summary(command), "")
  }

  // ---------------------------------------------------------------------------
  // list

  /** The status column: `Pending` until some host is listed, then the hosts
      in the order of their markers. */
  function Status(description: string): (r: string)
    ensures r == "Pending" <==> ExecutedHosts(description) == []
    ensures ExecutedHosts(description) != [] ==>
              HasPrefix(r, "Executed (") && HasSuffix(r, ")") && |r| > |"Executed ("|
              && r[|"Executed ("|..|r| - 1] == Join(ExecutedHosts(description), ", ")
  {
    var hosts := ExecutedHosts(description);
    if |hosts| > 0 then
      var r := "Executed (" + Join(hosts, ", ") + ")";
      assert r[0] == 'E';
      assert r[..|"Executed ("|] == "Executed (";
      r
    else "Pending"
  }

  /** One line of the listing. */
  datatype Row = Row(uid: string, command: string, status: string)

  /** The listing line of a stored entry; none for an entry that is not a
      command. */
  function RowOf(e: Entry): (r: Option<Row>)
    ensures r.Some? <==> IsCommandSummary(e.summary)
    ensures r.Some? ==> r.value.uid == e.uid && r.value.command == DisplayCommand(e.summary)
  {
    if HasPrefix(e.summary, COMMAND_PREFIX) then
      Some(Row(e.uid, TrimPrefix(e.summary, SUMMARY_PREFIX), Status(Unescape(e.description))))
    else None
  }

  /** The listing line of one query item; none for undecodable data. */
  function ItemRow(item: QueryItem): (r: Option<Row>)
    ensures r.Some? <==> item.data.Some? && IsCommandSummary(item.data.value.summary)
  {
    if item.data.None? then None else RowOf(item.data.value)
  }

  /** The present results of `f` over `xs`, in order. */
  function Collect<T, U>(xs: seq<T>, f: T -> Option<U>): (r: seq<U>)
    ensures |r| <= |xs|
    decreases |xs|
  {
    if xs == [] then []
    else (if f(xs[0]).Some? then [f(xs[0]).value] else []) + Collect(xs[1..], f)
  }

  /** Collecting over one more element adds that element's result. */
  lemma {:induction false} CollectSnoc<T, U>(xs: seq<T>, f: T -> Option<U>, i: nat)
    requires i < |xs|
    ensures Collect(xs[..i + 1], f) == Collect(xs[..i], f) + (if f(xs[i]).Some? then [f(xs[i]).value] else [])
    decreases i
  {
    if i == 0 {
      assert xs[..1] == [xs[0]];
      assert xs[..1][1..] == [];
    } else {
      var rest := xs[1..];
      CollectSnoc(rest, f, i - 1);
      assert xs[..i + 1][1..] == rest[..i];
      assert xs[..i][1..] == rest[..i - 1];
      assert xs[..i + 1][0] == xs[..i][0] == xs[0];
      assert rest[i - 1] == xs[i];
    }
  }

  /** The listing of a query result: one line per decodable command entry, in
      query order. */
  function Rows(items: seq<QueryItem>): (r: seq<Row>)
    ensures |r| <= |items|
    ensures forall i :: 0 <= i < |r| ==> exists k :: 0 <= k < |items| && ItemRow(items[k]) == Some(r[i])
    ensures forall k :: 0 <= k < |items| && ItemRow(items[k]).Some? ==> ItemRow(items[k]).value in r
  {
    CollectFrom(items, ItemRow);
    CollectTo(items, ItemRow);
    Collect(items, ItemRow)
  }

  /** Every collected result is the result of some element. */
  lemma {:induction false} CollectFrom<T, U>(xs: seq<T>, f: T -> Option<U>)
    ensures forall i :: 0 <= i < |Collect(xs, f)| ==> exists k :: 0 <= k < |xs| && f(xs[k]) == Some(Collect(xs, f)[i])
    decreases |xs|
  {
    if xs != [] {
      var head := if f(xs[0]).Some? then [f(xs[0]).value] else [];
      var rest := Collect(xs[1..], f);
      CollectFrom(xs[1..], f);
      assert Collect(xs, f) == head + rest;
      forall i | 0 <= i < |Collect(xs, f)|
        ensures exists k :: 0 <= k < |xs| && f(xs[k]) == Some(Collect(xs, f)[i])
      {
        if i < |head| {
          assert f(xs[0]) == Some(Collect(xs, f)[i]);
        } else {
          assert Collect(xs, f)[i] == rest[i - |head|];
          var k :| 0 <= k < |xs[1..]| && f(xs[1..][k]) == Some(rest[i - |head|]);
          assert xs[k + 1] == xs[1..][k];
        }
      }
    } else {
      assert Collect(xs, f) == [];
    }
  }

  /** Every element's result is collected. */
  lemma {:induction false} CollectTo<T, U>(xs: seq<T>, f: T -> Option<U>)
    ensures forall k :: 0 <= k < |xs| && f(xs[k]).Some? ==> f(xs[k]).value in Collect(xs, f)
    decreases |xs|
  {
    if xs != [] {
      var head := if f(xs[0]).Some? then [f(xs[0]).value] else [];
      var rest := Collect(xs[1..], f);
      CollectTo(xs[1..], f);
      assert Collect(xs, f) == head + rest;
      forall k | 0 <= k < |xs| && f(xs[k]).Some?
        ensures f(xs[k]).value in Collect(xs, f)
      {
        if k > 0 {
          assert xs[1..][k - 1] == xs[k];
        }
      }
    }
  }

  // ---------------------------------------------------------------------------
  // get

  /** What `get` shows: no entry, an entry it cannot read, an entry no host has
      answered, or each host's output with surrounding white space trimmed. */
  datatype OutputView =
    | EventNotFound
    | ParseFailed
    | NotYetExecuted(summary: string)
    | Outputs(summary: string, outputs: map<string, string>)

  /** The view of the first entry a UID query returned. */
  function EventOutput(items: seq<QueryItem>): (v: OutputView)
    ensures v == EventNotFound <==> items == []
    ensures v == ParseFailed <==> items != [] && items[0].data.None?
    ensures v.NotYetExecuted? <==>
              items != [] && items[0].data.Some? && ExtractAll(Unescape(items[0].data.value.description)) == map[]
    ensures v.NotYetExecuted? || v.Outputs? ==> v.summary == items[0].data.value.summary
    ensures v.Outputs? ==> var outs := ExtractAll(Unescape(items[0].data.value.description));
              v.outputs.Keys == outs.Keys && outs != map[]
              && forall h :: h in outs ==> v.outputs[h] == TrimSpace(outs[h])
  {
    if items == [] then EventNotFound
    else if items[0].data.None? then ParseFailed
    else
      var e := items[0].data.value;
      var outs := ExtractAll(Unescape(e.description));
      if |outs| == 0 then NotYetExecuted(e.summary)
      else Outputs(e.summary, map h | h in outs :: TrimSpace(outs[h]))
  }

  // ---------------------------------------------------------------------------
  // clear

  /** The clear rule: an entry is deleted once its description lists a host. */
  predicate Executed(item: QueryItem)
    ensures Executed(item) <==> item.data.Some? && Status(Unescape(item.data.value.description)) != "Pending"
  {
    item.data.Some? && ExecutedHosts(Unescape(item.data.value.description)) != []
  }

  /** The paths clear tries to delete and can reach. */
  function Doomed(items: seq<QueryItem>, unreachable: set<string>): (r: set<string>)
    ensures r <= PathsOf(items) && r !! unreachable
  {
    set k | 0 <= k < |items| && Executed(items[k]) && items[k].path !in unreachable :: items[k].path
  }

  /** One more item adds its path when it is executed and reachable. */
  lemma DoomedSnoc(items: seq<QueryItem>, item: QueryItem, unreachable: set<string>)
    ensures Doomed(items + [item], unreachable)
            == Doomed(items, unreachable) + (if Executed(item) && item.path !in unreachable then {item.path} else {})
  {
    var all := items + [item];
    forall p | p in Doomed(all, unreachable)
      ensures p in Doomed(items, unreachable) + (if Executed(item) && item.path !in unreachable then {item.path} else {})
    {
      var k :| 0 <= k < |all| && Executed(all[k]) && all[k].path !in unreachable && all[k].path == p;
      if k < |items| {
        assert all[k] == items[k];
      }
    }
    forall p | p in Doomed(items, unreachable)
      ensures p in Doomed(all, unreachable)
    {
      var k :| 0 <= k < |items| && Executed(items[k]) && items[k].path !in unreachable && items[k].path == p;
      assert all[k] == items[k];
    }
    if Executed(item) && item.path !in unreachable {
      assert all[|items|] == item;
    }
  }

  /** The paths selected after one more item of the query. */
  lemma ClearStep(items: seq<QueryItem>, i: nat, unreachable: set<string>)
    requires i < |items|
    ensures Doomed(items[..i + 1], unreachable)
            == Doomed(items[..i], unreachable)
               + (if Executed(items[i]) && items[i].path !in unreachable then {items[i].path} else {})
  {
    var prefix, next := items[..i], items[..i + 1];
    assert next == prefix + [items[i]];
    DoomedSnoc(prefix, items[i], unreachable);
  }

  /** One item of clear: the entry is deleted, and counted, exactly when
      the item is selected, reachable and not yet deleted. */
  lemma ClearAdvance(events0: map<string, Entry>, items: seq<QueryItem>, i: nat, unreachable: set<string>,
                     before: map<string, Entry>, removed: bool, after: map<string, Entry>)
    requires i < |items|
    requires before == events0 - Doomed(items[..i], unreachable)
    requires removed == (Executed(items[i]) && items[i].path !in unreachable && items[i].path in before)
    requires after == if removed then before - {items[i].path} else before
    ensures after == events0 - Doomed(items[..i + 1], unreachable)
    ensures |events0.Keys * Doomed(items[..i + 1], unreachable)|
            == |events0.Keys * Doomed(items[..i], unreachable)| + (if removed then 1 else 0)
  {
    var done := Doomed(items[..i], unreachable);
    var p := items[i].path;
    ClearStep(items, i, unreachable);
    RemoveStep(events0, done, p);
    if Executed(items[i]) && p !in unreachable {
      assert Doomed(items[..i + 1], unreachable) == done + {p};
    } else {
      assert Doomed(items[..i + 1], unreachable) == done;
    }
  }

  /** Deleting one more path from what clear has left: it succeeds exactly
      when the path was there and not yet deleted, and then adds one to the
      count of deleted entries. */
  lemma RemoveStep(events: map<string, Entry>, done: set<string>, p: string)
    ensures (events - done) - {p} == events - (done + {p})
    ensures p in events - done ==> |events.Keys * (done + {p})| == |events.Keys * done| + 1
    ensures p !in events - done ==> events.Keys * (done + {p}) == events.Keys * done
    ensures p !in events - done ==> events - (done + {p}) == events - done
  {
    if p in events - done {
      assert events.Keys * (done + {p}) == (events.Keys * done) + {p};
    }
  }

  /** The status shown for a command entry is `Pending` exactly when clear
      does not select the entry; a selected entry whose path cannot be
      reached still stays. */
  lemma ClearMatchesStatus(item: QueryItem)
    requires item.data.Some? && IsCommandSummary(item.data.value.summary)
    ensures RowOf(item.data.value).value.status == "Pending" <==> !Executed(item)
  {
  }

  // ---------------------------------------------------------------------------
  // The console

  class Organizer {
    const calendarPath: string
    const store: Store

    constructor (calendarPath: string, store: Store)
      ensures this.calendarPath == calendarPath && this.store == store
    {
      this.calendarPath := calendarPath;
      this.store := store;
    }

    /** `create`: stores a new entry under a path made from the fresh UID,
        unless the call fails. */
    method CreateCommand(command: string, uid: string, fails: bool) returns (ok: bool)
      modifies store
      ensures ok == !fails
      ensures store.events == if ok then old(store.events)[EventPath(calendarPath, uid) := NewEntry(uid, command)]
                              else old(store.events)
    {
      var event := Entry(uid, SUMMARY_PREFIX + command, "");
      ok := store.Put(EventPath(calendarPath, uid), event, fails);
    }

    /** `list`: one row per command entry of the query result. */
    method ListEvents(items: seq<QueryItem>) returns (rows: seq<Row>)
      ensures rows == Rows(items)
    {
      rows := [];
      assert items[..0] == [];
      for i := 0 to |items|
        invariant rows == Collect(items[..i], ItemRow)
      {
        CollectSnoc(items, ItemRow, i);
        var item := items[i];
        if item.data.None? {
          continue;
        }
        var summary := item.data.value.summary;
        var description := Unescape(item.data.value.description);
        if HasPrefix(summary, COMMAND_PREFIX) {
          var cmd := TrimPrefix(summary, SUMMARY_PREFIX);
          var status := "Pending";
          var hosts := GetExecutedHosts(description);
          if |hosts| > 0 {
            status := "Executed (" + Join(hosts, ", ") + ")";
          }
          assert status == Status(description);
          rows := rows + [Row(item.data.value.uid, cmd, status)];
        }
      }
      assert items[..|items|] == items;
    }

    /** `clear`: deletes every reachable entry of the query result whose
        description lists a host, and counts the deletions that succeeded. */
    method ClearExecutedEvents(items: seq<QueryItem>, unreachable: set<string>) returns (count: nat)
      modifies store
      ensures store.events == old(store.events) - Doomed(items, unreachable)
      ensures count == |old(store.events).Keys * Doomed(items, unreachable)|
    {
      count := 0;
      assert items[..0] == [];
      assert Doomed(items[..0], unreachable) == {};
      for i := 0 to |items|
        invariant store.events == old(store.events) - Doomed(items[..i], unreachable)
        invariant count == |old(store.events).Keys * Doomed(items[..i], unreachable)|
      {
        var event := items[i];
        ghost var before := store.events;
        var ok := false;
        if event.data.Some? {
          var description := Unescape(event.data.value.description);
          var hosts := GetExecutedHosts(description);
          if |hosts| > 0 {
            ok := store.RemoveAll(event.path, event.path in unreachable);
            if ok {
              count := count + 1;
            }
          }
        }
        ClearAdvance(old(store.events), items, i, unreachable, before, ok, store.events);
      }
      assert items[..|items|] == items;
    }
  }

  // ---------------------------------------------------------------------------
  // Lemmas

  /** A command as the organizer creates it is listed with its own text, as
      pending. */
  lemma ListCreated(uid: string, command: string)
    ensures RowOf(NewEntry(uid, command)) == Some(Row(uid, command, "Pending"))
  {
    UnescapePlain("");
  }

  /** No backslash is introduced by appending a block. */
  lemma {:induction false} AppendAllPlain(description: string, blocks: seq<Block>)
    requires '\\' !in description
    requires forall i :: 0 <= i < |blocks| ==> '\\' !in blocks[i].host && '\\' !in blocks[i].body
    ensures '\\' !in AppendAll(description, blocks)
    decreases |blocks|
  {
    if blocks != [] {
      var init := blocks[..|blocks| - 1];
      var last := blocks[|blocks| - 1];
      assert forall i :: 0 <= i < |init| ==> init[i] == blocks[i];
      AppendAllPlain(description, init);
      BlockPlain(AppendAll(description, init), last.host, last.body);
    }
  }

  /** No backslash is introduced by appending one block. */
  lemma BlockPlain(description: string, host: string, output: string)
    requires '\\' !in description && '\\' !in host && '\\' !in output
    ensures '\\' !in AppendBlock(description, host, output)
  {
    assert AppendBlock(description, host, output)
        == description + "\n\n" + (START_TAG + host + "]") + "\n" + output + "\n" + (END_TAG + host + "]");
  }

  /** The organizer reads back what the guests appended: with no backslash
      anywhere, the description lists the blocks' hosts in append order. */
  lemma AnsweredHosts(blocks: seq<Block>)
    requires WellFormedBlocks(blocks)
    requires forall i :: 0 <= i < |blocks| ==> '\\' !in blocks[i].host && '\\' !in blocks[i].body
    ensures ExecutedHosts(Unescape(AppendAll("", blocks))) == HostsOf(blocks)
  {
    AppendAllPlain("", blocks);
    UnescapePlain(AppendAll("", blocks));
    ListFresh(blocks);
  }

  /** Listing and clearing after hosts answered: a created entry whose
      description received well-formed blocks (no backslash in them) from
      hosts `h1 … hn` is listed as `Executed (h1, …, hn)` when n > 0, and
      clear selects it exactly then. */
  lemma ListAnswered(uid: string, command: string, blocks: seq<Block>, path: string)
    requires WellFormedBlocks(blocks)
    requires forall i :: 0 <= i < |blocks| ==> '\\' !in blocks[i].host && '\\' !in blocks[i].body
    ensures var e := Entry(uid, Summary(command), AppendAll("", blocks));
            RowOf(e) == Some(Row(uid, command,
                                 if blocks == [] then "Pending" else "Executed (" + Join(HostsOf(blocks), ", ") + ")"))
            && (Executed(QueryItem(path, Some(e))) <==> blocks != [])
  {
    AnsweredHosts(blocks);
    AnsweredStatus(blocks);
  }

  /** The status of a created entry after the blocks are appended. */
  lemma AnsweredStatus(blocks: seq<Block>)
    requires ExecutedHosts(Unescape(AppendAll("", blocks))) == HostsOf(blocks)
    ensures Status(Unescape(AppendAll("", blocks)))
            == if blocks == [] then "Pending" else "Executed (" + Join(HostsOf(blocks), ", ") + ")"
    ensures ExecutedHosts(Unescape(AppendAll("", blocks))) != [] <==> blocks != []
  {
    assert |HostsOf(blocks)| == |blocks|;
  }

  /** What clear leaves: an entry survives exactly when clear did not select
      it or could not reach it, and survivors are untouched. */
  lemma ClearKeeps(events: map<string, Entry>, items: seq<QueryItem>, unreachable: set<string>, p: string)
    requires p in events
    ensures var after := events - Doomed(items, unreachable);
            (p in after <==> forall k :: 0 <= k < |items| && items[k].path == p ==> !Executed(items[k]) || p in unreachable)
            && (p in after ==> after[p] == events[p])
  {
    var after := events - Doomed(items, unreachable);
    if p !in after {
      var k :| 0 <= k < |items| && Executed(items[k]) && items[k].path !in unreachable && items[k].path == p;
    }
  }

  /** Clear reads the same listing as `list`: over a query read from the
      store, with every path reachable, it deletes exactly the entries whose
      row is not `Pending` (and non-command entries that list a host). */
  lemma ClearSelectsListed(events: map<string, Entry>, paths: seq<string>, p: string)
    requires p in events && IsCommandSummary(events[p].summary) && p in paths
    ensures p in Doomed(QueryOf(events, paths), {}) <==> RowOf(events[p]).value.status != "Pending"
  {
    var items := QueryOf(events, paths);
    var k :| 0 <= k < |paths| && paths[k] == p;
    assert items[k].path == p && items[k].data == Some(events[p]);
    ClearMatchesStatus(items[k]);
    if p in Doomed(items, {}) {
      var j :| 0 <= j < |items| && Executed(items[j]) && items[j].path == p;
      assert items[j] == items[k];
    }
  }
}
