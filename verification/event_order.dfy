/**
  How the order of events decides the outcome for one path: a delete that
  comes first wins over any later add, while an add that comes first is
  cancelled by a later delete.
 */
module EventOrder {
  import opened Reconciler
  import opened PathFate

  /**
    A delete of a path that is not currently added marks it deleted for good:
    whatever follows, a later add included, it ends in the deleted set and in
    no other.
   */
  lemma DeleteThenAnything(pre: seq<FileEvent>, p: string, post: seq<FileEvent>)
    requires p !in Reconcile(pre).added
    ensures p in Reconcile(pre + [FileEvent(Deleted, p)] + post).deleted
    ensures p !in Reconcile(pre + [FileEvent(Deleted, p)] + post).added
    ensures p !in Reconcile(pre + [FileEvent(Deleted, p)] + post).modified
  {
    var d := FileEvent(Deleted, p);
    RunSnoc(Fresh, pre, d);
    RunAppend(Fresh, pre + [d], post);
  }

  /**
    An add of a path that is not deleted, followed by any number of modifies of
    it and then a delete, leaves the path in none of the three sets.
   */
  lemma AddModifyDelete(pre: seq<FileEvent>, p: string, mid: seq<FileEvent>)
    requires p !in Reconcile(pre).deleted
    requires forall i :: 0 <= i < |mid| && mid[i].path == p ==> mid[i].kind == Modified
    ensures p !in Tracked(Reconcile(pre + [FileEvent(Added, p)] + mid + [FileEvent(Deleted, p)]))
  {
    var a := FileEvent(Added, p);
    var d := FileEvent(Deleted, p);
    RunSnoc(Fresh, pre, a);
    var t1 := Run(Fresh, pre + [a]);
    assert p in t1.added;
    RunAppend(Fresh, pre + [a], mid);
    var t2 := Run(t1, mid);
    RunFate(t1, mid, p);
    FateOfDisjoint(t1, p);
    ReplayAddedThroughModifies(mid, p);
    FateOfDisjoint(t2, p);
    RunSnoc(Fresh, pre + [a] + mid, d);
  }

  /** A repeated add or modify of the same path changes nothing the first did not. */
  lemma {:induction false} RepeatIsIdempotent(events: seq<FileEvent>, e: FileEvent)
    requires e.kind != Deleted
    ensures Reconcile(events + [e, e]) == Reconcile(events + [e])
  {
    RunSnoc(Fresh, events, e);
    RunSnoc(Fresh, events + [e], e);
    assert events + [e] + [e] == events + [e, e];
  }

  /** A second delete of a path that was added is not idempotent: it turns
      "neither" into "deleted". */
  lemma RepeatedDeleteAfterAdd(p: string)
    ensures Reconcile([FileEvent(Added, p), FileEvent(Deleted, p)]).deleted == {}
    ensures Reconcile([FileEvent(Added, p), FileEvent(Deleted, p), FileEvent(Deleted, p)]).deleted == {p}
  {
    var a := FileEvent(Added, p);
    var d := FileEvent(Deleted, p);
    RunSnoc(Fresh, [a], d);
    RunSnoc(Fresh, [a, d], d);
    assert [a] + [d] == [a, d];
    assert [a, d] + [d] == [a, d, d];
  }
}
