/**
 * The shared calendar as both programs see it: entries stored under a path,
 * read by a query, fetched, overwritten and deleted. The CalDAV transport is
 * not modelled; a call that fails is named by the caller (a `fails` flag or a
 * set of unreachable paths), and the store then stays as it was.
 */
module Calendar {
  import opened Wrappers

  /** The properties of an entry that the protocol reads and writes. */
  datatype Entry = Entry(uid: string, summary: string, description: string)

  /** One result of a calendar query: the entry's path and its parsed data,
      `None` when the data could not be decoded. */
  datatype QueryItem = QueryItem(path: string, data: Option<Entry>)

  /** The entry stored under `path`, if any. */
  function Lookup(events: map<string, Entry>, path: string): (r: Option<Entry>)
    ensures r.Some? <==> path in events
    ensures r.Some? ==> r.value == events[path]
  {
    if path in events then Some(events[path]) else None
  }

  /** The result of a query that lists `paths`, read from `events`. */
  function QueryOf(events: map<string, Entry>, paths: seq<string>): (r: seq<QueryItem>)
    ensures |r| == |paths|
    ensures forall k :: 0 <= k < |r| ==> r[k].path == paths[k] && r[k].data == Lookup(events, paths[k])
  {
    seq(|paths|, k requires 0 <= k < |paths| => QueryItem(paths[k], Lookup(events, paths[k])))
  }

  /** Every item carries the data `events` holds for its path. */
  predicate ReadFrom(items: seq<QueryItem>, events: map<string, Entry>) {
    forall k :: 0 <= k < |items| ==> items[k].data == Lookup(events, items[k].path)
  }

  /** The paths of the query items, as a set. */
  function PathsOf(items: seq<QueryItem>): set<string> {
    set k | 0 <= k < |items| :: items[k].path
  }

  /** No path is listed twice. */
  predicate DistinctPaths(items: seq<QueryItem>) {
    forall i, j :: 0 <= i < j < |items| ==> items[i].path != items[j].path
  }

  /** The calendar collection on the server. */
  class Store {
    var events: map<string, Entry>

    constructor (events: map<string, Entry>)
      ensures this.events == events
    {
      this.events := events;
    }

    /** `GetCalendarObject`: the entry under `path`, or `None` when there is none. */
    method Get(path: string) returns (e: Option<Entry>)
      ensures e.Some? <==> path in events
      ensures e.Some? ==> e.value == events[path]
    {
      e := Lookup(events, path);
    }

    /** `PutCalendarObject`: stores `e` under `path` unless the call fails. */
    method Put(path: string, e: Entry, fails: bool) returns (ok: bool)
      modifies this
      ensures ok == !fails
      ensures events == if ok then old(events)[path := e] else old(events)
    {
      ok := !fails;
      if ok {
        events := events[path := e];
      }
    }

    /** `RemoveAll`: deletes the entry under `path`; fails when the call fails
        or there is nothing to delete. */
    method RemoveAll(path: string, fails: bool) returns (ok: bool)
      modifies this
      ensures ok == (!fails && path in old(events))
      ensures events == if ok then old(events) - {path} else old(events)
    {
      ok := !fails && path in events;
      if ok {
        events := events - {path};
      }
    }
  }
}
