/**
  The order in which `get_file_change_stats` sees commits. `git log` lists
  commits newest first, and the loop replays them in that order, while the
  rules for adds and deletes are written for oldest-first replay ("added then
  deleted = net zero"). `FileChangeStats` is the loop as written;
  `ChronologicalStats` replays the same commits oldest first.
 */
module CommitOrder {
  import opened Text
  import opened Reconciler
  import opened EventOrder
  import opened DiffTree

  function Reverse<T>(s: seq<T>): (r: seq<T>)
    ensures |r| == |s|
    ensures forall i :: 0 <= i < |s| ==> r[i] == s[|s| - 1 - i]
  {
    if |s| == 0 then [] else Reverse(s[1..]) + [s[0]]
  }

  /** Reversal swaps the first and last items and reverses the middle. */
  lemma ReverseEnds<T>(x: T, mid: seq<T>, y: T)
    ensures Reverse([x] + mid + [y]) == [y] + Reverse(mid) + [x]
  {
    var s := [x] + mid + [y];
    var r := [y] + Reverse(mid) + [x];
    assert |Reverse(s)| == |r|;
    forall i | 0 <= i < |r| ensures Reverse(s)[i] == r[i] {
      if 0 < i < |r| - 1 {
        assert r[i] == Reverse(mid)[i - 1] == mid[|mid| - i];
        assert s[|s| - 1 - i] == mid[|mid| - i];
      }
    }
  }

  /** The counts with the commits replayed oldest first: `logOrder` is newest
      first, as `git log` prints it. */
  function ChronologicalStats(logOrder: seq<string>): (c: Counts)
    ensures c.added + c.modified + c.deleted <= |Paths(EventsOf(logOrder))|
    ensures logOrder == [] ==> c == Counts(0, 0, 0)
  {
    var events := Flatten(Reverse(CommitsOf(logOrder)));
    ReversePaths(CommitsOf(logOrder));
    Stats(events)
  }

  /** Reversing the commits keeps the set of paths they mention. */
  lemma ReversePaths(commits: seq<seq<FileEvent>>)
    ensures Paths(Flatten(Reverse(commits))) == Paths(Flatten(commits))
  {
    var r := Reverse(commits);
    forall p ensures p in Paths(Flatten(r)) <==> p in Paths(Flatten(commits)) {
      FlattenPaths(r, p);
      FlattenPaths(commits, p);
      if (exists i :: 0 <= i < |r| && p in Paths(r[i])) {
        var i :| 0 <= i < |r| && p in Paths(r[i]);
        assert r[i] == commits[|commits| - 1 - i];
      }
      if (exists i :: 0 <= i < |commits| && p in Paths(commits[i])) {
        var i :| 0 <= i < |commits| && p in Paths(commits[i]);
        assert commits[i] == r[|commits| - 1 - i];
      }
    }
  }

  lemma PathsSingle(e: FileEvent)
    ensures Paths([e]) == {e.path}
  {
    assert e in [e];
  }

  lemma PathsAppend(a: seq<FileEvent>, b: seq<FileEvent>)
    ensures Paths(a + b) == Paths(a) + Paths(b)
  {
    forall p | p in Paths(a + b) ensures p in Paths(a) + Paths(b) {
      var e :| e in a + b && e.path == p;
      assert e in a || e in b;
    }
    forall p | p in Paths(a) + Paths(b) ensures p in Paths(a + b) {
      if p in Paths(a) {
        var e :| e in a && e.path == p;
        assert e in a + b;
      } else {
        var e :| e in b && e.path == p;
        assert e in a + b;
      }
    }
  }

  /** A path is among the flattened events exactly when some commit mentions it. */
  lemma {:induction false} FlattenPaths(commits: seq<seq<FileEvent>>, p: string)
    ensures p in Paths(Flatten(commits)) <==> exists i :: 0 <= i < |commits| && p in Paths(commits[i])
    decreases |commits|
  {
    if |commits| > 0 {
      var init := commits[..|commits| - 1];
      FlattenPaths(init, p);
      PathsAppend(Flatten(init), commits[|commits| - 1]);
      if exists i :: 0 <= i < |init| && p in Paths(init[i]) {
        var i :| 0 <= i < |init| && p in Paths(init[i]);
        assert commits[i] == init[i];
      }
      if exists i :: 0 <= i < |commits| && p in Paths(commits[i]) {
        var i :| 0 <= i < |commits| && p in Paths(commits[i]);
        if i < |init| {
          assert init[i] == commits[i];
        }
      }
    }
  }

  /** A commit output that is a single `STATUS<TAB>PATH` line holds one event. */
  lemma SingleLineCommit(k: ChangeKind, status: string, path: string)
    requires |status| > 0 && status[0] == Letter(k)
    requires '\t' !in status && '\t' !in path && '\n' !in status && '\n' !in path
    ensures CommitEvents(status + "\t" + path) == [FileEvent(k, path)]
  {
    var line := status + "\t" + path;
    assert '\n' !in line;
    assert Split(line, '\n') == [line];
    FormattedLineParses(k, status, path);
    assert [line][..0] == [];
    assert EventsOfLines([line]) == EventsOfLines([]) + [FileEvent(k, path)];
  }

  /** The events of commits `x`, then `mid`, then `y`. */
  lemma FlattenEnds(x: seq<FileEvent>, mid: seq<seq<FileEvent>>, y: seq<FileEvent>)
    ensures Flatten([x] + mid + [y]) == x + Flatten(mid) + y
  {
    FlattenAppend([x] + mid, [y]);
    FlattenAppend([x], mid);
    assert [x][..0] == [];
    assert [y][..0] == [];
  }

  /**
    As written: when the newest commit deletes `p` and the oldest one creates
    it, the log-order replay meets the delete first, so `p` is counted as
    deleted, whatever the commits in between do.
   */
  lemma CreatedThenDeletedAsWritten(p: string, between: seq<seq<FileEvent>>)
    ensures p in Reconcile(Flatten([[FileEvent(Deleted, p)]] + between + [[FileEvent(Added, p)]])).deleted
    ensures p !in Reconcile(Flatten([[FileEvent(Deleted, p)]] + between + [[FileEvent(Added, p)]])).added
  {
    var d := FileEvent(Deleted, p);
    var a := FileEvent(Added, p);
    FlattenEnds([d], between, [a]);
    var post := Flatten(between) + [a];
    assert [d] + Flatten(between) + [a] == [] + [d] + post;
    DeleteThenAnything([], p, post);
  }

  /**
    Corrected: replayed oldest first, the same commits (create, then at most
    modifications of `p` among changes to other paths, then delete) leave `p`
    in none of the three sets.
   */
  lemma CreatedThenDeletedChronological(p: string, between: seq<seq<FileEvent>>)
    requires forall e :: e in Flatten(between) && e.path == p ==> e.kind == Modified
    ensures p !in Tracked(Reconcile(Flatten(Reverse([[FileEvent(Deleted, p)]] + between + [[FileEvent(Added, p)]]))))
  {
    var d := FileEvent(Deleted, p);
    var a := FileEvent(Added, p);
    ReverseEnds([d], between, [a]);
    FlattenEnds([a], Reverse(between), [d]);
    var mid := Flatten(Reverse(between));
    forall i | 0 <= i < |mid| && mid[i].path == p ensures mid[i].kind == Modified {
      assert mid[i] in mid;
      ReverseMembers(between, mid[i]);
    }
    assert [a] + mid + [d] == [] + [a] + mid + [d];
    AddModifyDelete([], p, mid);
  }

  /** An event is among the flattened events exactly when some commit holds it. */
  lemma {:induction false} FlattenMembers(commits: seq<seq<FileEvent>>, e: FileEvent)
    ensures e in Flatten(commits) <==> exists i :: 0 <= i < |commits| && e in commits[i]
    decreases |commits|
  {
    if |commits| > 0 {
      var init := commits[..|commits| - 1];
      FlattenMembers(init, e);
      assert Flatten(commits) == Flatten(init) + commits[|commits| - 1];
      if exists i :: 0 <= i < |init| && e in init[i] {
        var i :| 0 <= i < |init| && e in init[i];
        assert commits[i] == init[i];
      }
      if exists i :: 0 <= i < |commits| && e in commits[i] {
        var i :| 0 <= i < |commits| && e in commits[i];
        if i < |init| {
          assert init[i] == commits[i];
        }
      }
    }
  }

  /** Reversing the commits keeps the events they hold. */
  lemma ReverseMembers(commits: seq<seq<FileEvent>>, e: FileEvent)
    ensures e in Flatten(Reverse(commits)) <==> e in Flatten(commits)
  {
    var r := Reverse(commits);
    FlattenMembers(r, e);
    FlattenMembers(commits, e);
    if exists i :: 0 <= i < |r| && e in r[i] {
      var i :| 0 <= i < |r| && e in r[i];
      assert r[i] == commits[|commits| - 1 - i];
    }
    if exists i :: 0 <= i < |commits| && e in commits[i] {
      var i :| 0 <= i < |commits| && e in commits[i];
      assert commits[i] == r[|commits| - 1 - i];
    }
  }

  /** The commits of two outputs are the events of each. */
  lemma CommitsOfPair(x: string, y: string)
    ensures CommitsOf([x, y]) == [CommitEvents(x), CommitEvents(y)]
  {
  }

  /** The one-line output `D<TAB>a.txt` holds one delete. */
  lemma DeletedLineText()
    ensures CommitEvents("D\ta.txt") == [FileEvent(Deleted, "a.txt")]
  {
    var p := "a.txt";
    assert '\t' !in p && '\n' !in p by { assert forall i :: 0 <= i < |p| ==> p[i] in {'a', '.', 't', 'x'}; }
    assert "D\ta.txt" == "D" + "\t" + p;
    SingleLineCommit(Deleted, "D", p);
  }

  /** The one-line output `A<TAB>a.txt` holds one add. */
  lemma AddedLineText()
    ensures CommitEvents("A\ta.txt") == [FileEvent(Added, "a.txt")]
  {
    var p := "a.txt";
    assert '\t' !in p && '\n' !in p by { assert forall i :: 0 <= i < |p| ==> p[i] in {'a', '.', 't', 'x'}; }
    assert "A\ta.txt" == "A" + "\t" + p;
    SingleLineCommit(Added, "A", p);
  }

  /** Two one-line commit outputs, newest first: `a.txt` deleted, then (older) created. */
  lemma CreatedThenDeletedText()
    ensures CommitsOf(["D\ta.txt", "A\ta.txt"]) == [[FileEvent(Deleted, "a.txt")], [FileEvent(Added, "a.txt")]]
  {
    DeletedLineText();
    AddedLineText();
    CommitsOfPair("D\ta.txt", "A\ta.txt");
  }

  /** Counts for events about one path only, which ends up deleted. */
  lemma OnlyDeleted(events: seq<FileEvent>, p: string)
    requires Paths(events) == {p}
    requires p in Reconcile(events).deleted
    ensures Stats(events) == Counts(0, 0, 1)
  {
    var t := Reconcile(events);
    assert t.deleted == {p};
  }

  /** Counts for events about one path only, which ends up in no set. */
  lemma NoneTracked(events: seq<FileEvent>, p: string)
    requires Paths(events) == {p}
    requires p !in Tracked(Reconcile(events))
    ensures Stats(events) == Counts(0, 0, 0)
  {
    var t := Reconcile(events);
    assert Tracked(t) == {};
  }

  /** The one-path event sequences `[e1, e2]` mention that path only. */
  lemma TwoEventsOnePath(x: FileEvent, y: FileEvent)
    requires x.path == y.path
    ensures Paths(Flatten([[x]] + [] + [[y]])) == {x.path}
  {
    FlattenEnds([x], [], [y]);
    PathsSingle(x);
    PathsSingle(y);
    PathsAppend([x], [y]);
  }

  /** The smallest instance: `a.txt` created in one commit and deleted in the
      next, listed newest first, is counted as one deleted file as written and
      as nothing when replayed oldest first. */
  lemma CreatedThenDeletedCounts()
    ensures FileChangeStats(["D\ta.txt", "A\ta.txt"]) == Counts(0, 0, 1)
    ensures ChronologicalStats(["D\ta.txt", "A\ta.txt"]) == Counts(0, 0, 0)
  {
    var p := "a.txt";
    var d := FileEvent(Deleted, p);
    var a := FileEvent(Added, p);
    CreatedThenDeletedText();
    var commits := [[d]] + [] + [[a]];
    assert CommitsOf(["D\ta.txt", "A\ta.txt"]) == commits;

    CreatedThenDeletedAsWritten(p, []);
    TwoEventsOnePath(d, a);
    OnlyDeleted(Flatten(commits), p);

    CreatedThenDeletedChronological(p, []);
    ReverseEnds([d], [], [a]);
    assert Reverse(commits) == [[a]] + [] + [[d]];
    TwoEventsOnePath(a, d);
    NoneTracked(Flatten(Reverse(commits)), p);
  }
}
