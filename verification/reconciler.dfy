/**
  The file-change reconciler of `get_file_change_stats`: a fold of per-file
  status events into three sets of paths (net added, net modified, net
  deleted), whose sizes are the reported counts.

  The events are taken in whatever order the caller supplies them; nothing here
  assumes oldest-first.
 */
module Reconciler {

  /** The three statuses the reconciler acts on (the first letter of a
      `--name-status` line: `A`, `M` or `D`). */
  datatype ChangeKind = Added | Modified | Deleted

  /** One changed file of one commit. */
  datatype FileEvent = FileEvent(kind: ChangeKind, path: string)

  /** `added_files`, `modified_files` and `deleted_files`. */
  datatype Tracker = Tracker(added: set<string>, modified: set<string>, deleted: set<string>)

  /** The dictionary returned to the report: the sizes of the three sets. */
  datatype Counts = Counts(added: nat, modified: nat, deleted: nat)

  /** The three empty sets a reconciliation starts from. */
  const Fresh: Tracker := Tracker({}, {}, {})

  /** No path is in two of the sets. */
  predicate Disjoint(t: Tracker) {
    && t.added !! t.modified
    && t.added !! t.deleted
    && t.modified !! t.deleted
  }

  function Tracked(t: Tracker): set<string> {
    t.added + t.modified + t.deleted
  }

  /** The distinct paths an event sequence mentions. */
  function Paths(events: seq<FileEvent>): set<string> {
    set e | e in events :: e.path
  }

  /**
    One iteration of the reconciliation loop. Apart from the rules for its own
    kind, an event never touches another path, never shrinks the deleted set,
    and keeps the three sets disjoint.
   */
  function Step(t: Tracker, e: FileEvent): (r: Tracker)
    // Each event changes the membership of its own path only.
    ensures r.added - {e.path} == t.added - {e.path}
    ensures r.modified - {e.path} == t.modified - {e.path}
    ensures r.deleted - {e.path} == t.deleted - {e.path}
    ensures Disjoint(t) ==> Disjoint(r)
    // Nothing leaves the deleted set, and a path enters it only on a delete
    // of a path that is not currently added.
    ensures t.deleted <= r.deleted
    ensures r.deleted != t.deleted ==> e.kind == Deleted && e.path !in t.added
    // Added: suppressed for a deleted path; otherwise added and no longer modified.
    ensures e.kind == Added && e.path in t.deleted ==> r == t
    ensures e.kind == Added && e.path !in t.deleted ==> e.path in r.added && e.path !in r.modified
    // Deleted: cancels an add, otherwise records the delete; never left modified.
    ensures e.kind == Deleted ==> e.path !in r.modified
    ensures e.kind == Deleted && e.path in t.added ==> e.path !in r.added && r.deleted == t.deleted
    ensures e.kind == Deleted && e.path !in t.added ==> e.path in r.deleted
    // Modified: recorded exactly when the path is neither added nor deleted.
    ensures e.kind == Modified ==> r.added == t.added && r.deleted == t.deleted
    ensures e.kind == Modified ==> (e.path in r.modified <==> e.path in t.modified || (e.path !in t.added && e.path !in t.deleted))
  {
    var p := e.path;
    match e.kind
    case Added =>
      if p !in t.deleted then Tracker(t.added + {p}, t.modified - {p}, t.deleted) else t
    case Deleted =>
      if p in t.added then Tracker(t.added - {p}, t.modified - {p}, t.deleted)
      else Tracker(t.added, t.modified - {p}, t.deleted + {p})
    case Modified =>
      if p !in t.added && p !in t.deleted then Tracker(t.added, t.modified + {p}, t.deleted) else t
  }

  /** `Step` folded over `events`, starting from `t`, first event first. */
  function Run(t: Tracker, events: seq<FileEvent>): (r: Tracker)
    ensures Disjoint(t) ==> Disjoint(r)
    ensures t.deleted <= r.deleted
    ensures Tracked(r) <= Tracked(t) + Paths(events)
    // Paths the events never mention keep their membership.
    ensures r.added - Paths(events) == t.added - Paths(events)
    ensures r.modified - Paths(events) == t.modified - Paths(events)
    ensures r.deleted - Paths(events) == t.deleted - Paths(events)
    decreases |events|
  {
    if |events| == 0 then t
    else
      var init := events[..|events| - 1];
      var last := events[|events| - 1];
      assert events == init + [last];
      var mid := Run(t, init);
      var r := Step(mid, last);
      assert Paths(events) == Paths(init) + {last.path};
      assert r.added - Paths(events) == (mid.added - Paths(init)) - {last.path};
      assert r.modified - Paths(events) == (mid.modified - Paths(init)) - {last.path};
      assert r.deleted - Paths(events) == (mid.deleted - Paths(init)) - {last.path};
      r
  }

  /** The state after a whole reconciliation run. */
  function Reconcile(events: seq<FileEvent>): (r: Tracker)
    ensures Disjoint(r)
    ensures Tracked(r) <= Paths(events)
  {
    Run(Fresh, events)
  }

  /** The sizes of the three sets of a disjoint tracker add up to the number of tracked paths. */
  lemma DisjointCount(t: Tracker)
    requires Disjoint(t)
    ensures |t.added| + |t.modified| + |t.deleted| == |Tracked(t)|
  {
    assert |t.added + t.modified| == |t.added| + |t.modified|;
  }

  lemma SubsetCount(a: set<string>, b: set<string>)
    requires a <= b
    ensures |a| <= |b|
  {
    assert b == a + (b - a);
  }

  /**
    What `get_file_change_stats` returns for an event sequence: every count is
    bounded by the number of distinct paths, and no events give all zeros.
   */
  function Stats(events: seq<FileEvent>): (c: Counts)
    ensures c.added + c.modified + c.deleted <= |Paths(events)|
    ensures events == [] ==> c == Counts(0, 0, 0)
  {
    var t := Reconcile(events);
    DisjointCount(t);
    SubsetCount(Tracked(t), Paths(events));
    Counts(|t.added|, |t.modified|, |t.deleted|)
  }

  /** Running over `events + [e]` is one more step after running over `events`. */
  lemma RunSnoc(t: Tracker, events: seq<FileEvent>, e: FileEvent)
    ensures Run(t, events + [e]) == Step(Run(t, events), e)
  {
    assert (events + [e])[..|events|] == events;
  }

  /** Running over a concatenation is running over the first part, then the second. */
  lemma {:induction false} RunAppend(t: Tracker, a: seq<FileEvent>, b: seq<FileEvent>)
    ensures Run(t, a + b) == Run(Run(t, a), b)
    decreases |b|
  {
    if |b| > 0 {
      var init := b[..|b| - 1];
      assert (a + b)[..|a + b| - 1] == a + init;
      RunAppend(t, a, init);
    } else {
      assert a + b == a;
    }
  }
}
