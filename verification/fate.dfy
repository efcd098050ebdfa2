/**
  An independent, per-path reading of the reconciler: each path is in no set or
  in exactly one, and where it ends up is decided by a four-state transition
  table applied to the events that name that path and no others.
 */
module PathFate {
  import opened Reconciler

  /** Which of the reconciler's sets, if any, a path is in. */
  datatype Fate = Untouched | NetAdded | NetModified | NetDeleted

  /** The transition table for one path. A deleted path stays deleted; an
      added path that is deleted drops out; a modify only marks an untouched path. */
  function Advance(f: Fate, k: ChangeKind): Fate {
    match k
    case Added => if f == NetDeleted then NetDeleted else NetAdded
    case Deleted => if f == NetAdded then Untouched else NetDeleted
    case Modified => if f == Untouched then NetModified else f
  }

  /** `Advance` folded over the events that name `p`, in order; all other events are skipped. */
  function Replay(f: Fate, events: seq<FileEvent>, p: string): Fate
    decreases |events|
  {
    if |events| == 0 then f
    else
      var g := Replay(f, events[..|events| - 1], p);
      if events[|events| - 1].path == p then Advance(g, events[|events| - 1].kind) else g
  }

  function FateOf(t: Tracker, p: string): Fate {
    if p in t.added then NetAdded
    else if p in t.modified then NetModified
    else if p in t.deleted then NetDeleted
    else Untouched
  }

  /** On a disjoint tracker, `FateOf` names the one set a path is in. */
  lemma FateOfDisjoint(t: Tracker, p: string)
    requires Disjoint(t)
    ensures FateOf(t, p) == NetAdded <==> p in t.added
    ensures FateOf(t, p) == NetModified <==> p in t.modified
    ensures FateOf(t, p) == NetDeleted <==> p in t.deleted
    ensures FateOf(t, p) == Untouched <==> p !in Tracked(t)
  {
  }

  /** One step of the three-set loop is one step of the table for the event's
      path, and no step for any other path. */
  lemma StepFate(t: Tracker, e: FileEvent, p: string)
    requires Disjoint(t)
    ensures FateOf(Step(t, e), p) == if e.path == p then Advance(FateOf(t, p), e.kind) else FateOf(t, p)
  {
    if e.path != p {
      var r := Step(t, e);
      assert p in r.added <==> p in t.added by { assert p in r.added - {e.path} <==> p in t.added - {e.path}; }
      assert p in r.modified <==> p in t.modified by { assert p in r.modified - {e.path} <==> p in t.modified - {e.path}; }
      assert p in r.deleted <==> p in t.deleted by { assert p in r.deleted - {e.path} <==> p in t.deleted - {e.path}; }
    }
  }

  /** A whole run agrees with the per-path table. */
  lemma {:induction false} RunFate(t: Tracker, events: seq<FileEvent>, p: string)
    requires Disjoint(t)
    ensures FateOf(Run(t, events), p) == Replay(FateOf(t, p), events, p)
    decreases |events|
  {
    if |events| > 0 {
      var init := events[..|events| - 1];
      RunFate(t, init, p);
      StepFate(Run(t, init), events[|events| - 1], p);
    }
  }

  /**
    The result sets of a reconciliation, described path by path: a path is
    in the added (modified, deleted) set exactly when the table, run over the
    events naming it, ends in NetAdded (NetModified, NetDeleted).
   */
  lemma ReconcileByPath(events: seq<FileEvent>)
    ensures Reconcile(events).added == set p | p in Paths(events) && Replay(Untouched, events, p) == NetAdded
    ensures Reconcile(events).modified == set p | p in Paths(events) && Replay(Untouched, events, p) == NetModified
    ensures Reconcile(events).deleted == set p | p in Paths(events) && Replay(Untouched, events, p) == NetDeleted
  {
    var r := Reconcile(events);
    forall p
      ensures FateOf(r, p) == Replay(Untouched, events, p)
      ensures p in Tracked(r) ==> p in Paths(events)
    {
      RunFate(Fresh, events, p);
    }
    forall p ensures FateOf(r, p) == NetAdded <==> p in r.added {
      FateOfDisjoint(r, p);
    }
    forall p ensures FateOf(r, p) == NetModified <==> p in r.modified {
      FateOfDisjoint(r, p);
    }
    forall p ensures FateOf(r, p) == NetDeleted <==> p in r.deleted {
      FateOfDisjoint(r, p);
    }
  }

  /** Once the table says deleted, no later event for that path changes it. */
  lemma {:induction false} ReplayFromDeleted(events: seq<FileEvent>, p: string)
    ensures Replay(NetDeleted, events, p) == NetDeleted
    decreases |events|
  {
    if |events| > 0 {
      ReplayFromDeleted(events[..|events| - 1], p);
    }
  }

  /** Modify events keep an added path added. */
  lemma {:induction false} ReplayAddedThroughModifies(events: seq<FileEvent>, p: string)
    requires forall i :: 0 <= i < |events| && events[i].path == p ==> events[i].kind == Modified
    ensures Replay(NetAdded, events, p) == NetAdded
    decreases |events|
  {
    if |events| > 0 {
      ReplayAddedThroughModifies(events[..|events| - 1], p);
    }
  }
}
