/**
  One-path event sequences through the branches of `get_file_change_stats`,
  stated over any path and fed to the reconciler in the order the log lists them.
 */
module Scenarios {
  import opened Reconciler
  import opened EventOrder

  /** The three counts of a tracker that holds one path in one set. */
  lemma OnePathCounts(t: Tracker, p: string)
    ensures t == Tracker({p}, {}, {}) ==> (|t.added|, |t.modified|, |t.deleted|) == (1, 0, 0)
    ensures t == Tracker({}, {p}, {}) ==> (|t.added|, |t.modified|, |t.deleted|) == (0, 1, 0)
    ensures t == Tracker({}, {}, {p}) ==> (|t.added|, |t.modified|, |t.deleted|) == (0, 0, 1)
  {
  }

  /** One add: one added file. */
  lemma AddOnly(p: string)
    ensures Stats([FileEvent(Added, p)]) == Counts(1, 0, 0)
  {
    RunSnoc(Fresh, [], FileEvent(Added, p));
    assert [] + [FileEvent(Added, p)] == [FileEvent(Added, p)];
    OnePathCounts(Reconcile([FileEvent(Added, p)]), p);
  }

  /** An add followed by a delete of the same path nets to nothing. */
  lemma AddThenDelete(p: string)
    ensures Stats([FileEvent(Added, p), FileEvent(Deleted, p)]) == Counts(0, 0, 0)
  {
    RepeatedDeleteAfterAdd(p);
  }

  /** Two modifies of one path count once. */
  lemma ModifyTwice(p: string)
    ensures Stats([FileEvent(Modified, p), FileEvent(Modified, p)]) == Counts(0, 1, 0)
  {
    var m := FileEvent(Modified, p);
    RunSnoc(Fresh, [], m);
    assert [] + [m] == [m];
    RepeatIsIdempotent([], m);
    assert [] + [m, m] == [m, m];
    OnePathCounts(Reconcile([m, m]), p);
  }

  /** Add, modify, delete of one path nets to nothing. */
  lemma AddModifyThenDelete(p: string)
    ensures Stats([FileEvent(Added, p), FileEvent(Modified, p), FileEvent(Deleted, p)]) == Counts(0, 0, 0)
  {
    var a := FileEvent(Added, p);
    var m := FileEvent(Modified, p);
    var d := FileEvent(Deleted, p);
    AddModifyDelete([], p, [m]);
    assert [] + [a] + [m] + [d] == [a, m, d];
    assert Tracked(Reconcile([a, m, d])) == {};
  }

  /**
    A delete followed by an add of the same path counts as one deleted file:
    the add is ignored because the path is already deleted.
   */
  lemma DeleteThenAdd(p: string)
    ensures Stats([FileEvent(Deleted, p), FileEvent(Added, p)]) == Counts(0, 0, 1)
  {
    var a := FileEvent(Added, p);
    var d := FileEvent(Deleted, p);
    DeleteThenAnything([], p, [a]);
    assert [] + [d] + [a] == [d, a];
    var t := Reconcile([d, a]);
    assert Tracked(t) <= {p};
    assert t == Tracker({}, {}, {p});
    OnePathCounts(t, p);
  }
}
