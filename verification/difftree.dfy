/**
  `get_file_change_stats` from the text it reads: one `git diff-tree
  --no-commit-id --name-status -r` output per commit, in the order `git log`
  lists the commits, each output a sequence of `STATUS<TAB>PATH` lines.
 */
module DiffTree {
  import opened Wrappers
  import opened Text
  import opened Reconciler

  /** The status letter an event kind is read from. */
  function Letter(k: ChangeKind): char {
    match k
    case Added => 'A'
    case Modified => 'M'
    case Deleted => 'D'
  }

  /** `status.startswith("A")`, then `"D"`, then `"M"`; any other status is ignored. */
  function StatusKind(status: string): (k: Option<ChangeKind>)
    ensures k.Some? <==> |status| > 0 && status[0] in {'A', 'D', 'M'}
    ensures k.Some? ==> status[0] == Letter(k.value)
  {
    if |status| == 0 then None
    else if status[0] == 'A' then Some(Added)
    else if status[0] == 'D' then Some(Deleted)
    else if status[0] == 'M' then Some(Modified)
    else None
  }

  /**
    One output line: skipped when blank or when it has fewer than two
    tab-separated fields, and when its status is none of `A`, `D`, `M`
    (renames, copies, type changes). Otherwise the event for the second field.
   */
  function ParseLine(line: string): (r: Option<FileEvent>)
    ensures r.Some? <==> '\t' in line && line[0] in {'A', 'D', 'M'}
    ensures r.Some? ==> line[0] == Letter(r.value.kind) && '\t' !in r.value.path
    // The path is the second tab-separated field; any further fields are dropped.
    ensures r.Some? ==> |Split(line, '\t')| >= 2 && r.value.path == Split(line, '\t')[1]
  {
    if IsBlank(line) then None
    else
      var parts := Split(line, '\t');
      SplitSingle(line, '\t');
      if |parts| < 2 then None
      else
        SplitHead(line, '\t');
        match StatusKind(parts[0])
        case None => None
        case Some(k) => Some(FileEvent(k, parts[1]))
  }

  /** A `STATUS<TAB>PATH` line whose status starts with the letter of `k`
      reads back as the event of kind `k` for that path. */
  lemma FormattedLineParses(k: ChangeKind, status: string, path: string)
    requires |status| > 0 && status[0] == Letter(k)
    requires '\t' !in status && '\t' !in path
    ensures ParseLine(status + "\t" + path) == Some(FileEvent(k, path))
  {
    var line := status + "\t" + path;
    assert line[0] == status[0];
    SplitAtFirst(status, '\t', path);
    assert Split(line, '\t') == [status, path];
  }

  /** The events of a sequence of lines, in order, skipping ignored lines. */
  function EventsOfLines(lines: seq<string>): (events: seq<FileEvent>)
    // At most one event per line.
    ensures |events| <= |lines|
    decreases |lines|
  {
    if |lines| == 0 then []
    else
      var init := EventsOfLines(lines[..|lines| - 1]);
      match ParseLine(lines[|lines| - 1])
      case None => init
      case Some(e) => init + [e]
  }

  /** The events of one commit's output, read line by line. */
  function CommitEvents(output: string): seq<FileEvent> {
    EventsOfLines(Split(output, '\n'))
  }

  /** An output of one line gives the event that line parses to, if any. */
  lemma OneLineOutput(output: string)
    requires '\n' !in output
    ensures CommitEvents(output) == (if ParseLine(output).Some? then [ParseLine(output).value] else [])
  {
    SplitSingle(output, '\n');
    assert Split(output, '\n')[..0] == [];
  }

  /** An output gives at most one event per line. */
  lemma OutputEventsBound(output: string)
    ensures |CommitEvents(output)| <= multiset(output)['\n'] + 1
  {
    SplitCount(output, '\n');
  }

  /** One event sequence per commit, in the order of the outputs. */
  function CommitsOf(outputs: seq<string>): (commits: seq<seq<FileEvent>>)
    ensures |commits| == |outputs|
    ensures forall i :: 0 <= i < |outputs| ==> commits[i] == CommitEvents(outputs[i])
  {
    seq(|outputs|, i requires 0 <= i < |outputs| => CommitEvents(outputs[i]))
  }

  /** The events of the commits one after another. */
  function Flatten(commits: seq<seq<FileEvent>>): seq<FileEvent>
    decreases |commits|
  {
    if |commits| == 0 then [] else Flatten(commits[..|commits| - 1]) + commits[|commits| - 1]
  }

  /** The events the loop reads from a sequence of per-commit outputs. */
  function EventsOf(outputs: seq<string>): seq<FileEvent> {
    Flatten(CommitsOf(outputs))
  }

  lemma {:induction false} EventsOfLinesAppend(a: seq<string>, b: seq<string>)
    ensures EventsOfLines(a + b) == EventsOfLines(a) + EventsOfLines(b)
    decreases |b|
  {
    if |b| == 0 {
      assert a + b == a;
    } else {
      assert (a + b)[..|a + b| - 1] == a + b[..|b| - 1];
      EventsOfLinesAppend(a, b[..|b| - 1]);
    }
  }

  lemma {:induction false} FlattenAppend(a: seq<seq<FileEvent>>, b: seq<seq<FileEvent>>)
    ensures Flatten(a + b) == Flatten(a) + Flatten(b)
    decreases |b|
  {
    if |b| == 0 {
      assert a + b == a;
    } else {
      var init := b[..|b| - 1];
      assert (a + b)[..|a + b| - 1] == a + init;
      FlattenAppend(a, init);
    }
  }

  /** Reading one more commit appends that commit's events. */
  lemma EventsOfNext(outputs: seq<string>, i: nat)
    requires i < |outputs|
    ensures EventsOf(outputs[..i + 1]) == EventsOf(outputs[..i]) + CommitEvents(outputs[i])
  {
    assert CommitsOf(outputs[..i + 1])[..i] == CommitsOf(outputs[..i]);
  }

  /**
    A line the loop skips (blank, without a tab, or with another status) can
    be inserted anywhere in the output without changing the events read.
   */
  lemma IgnoredLineChangesNothing(before: seq<string>, line: string, after: seq<string>)
    requires ParseLine(line) == None
    ensures EventsOfLines(before + [line] + after) == EventsOfLines(before + after)
  {
    EventsOfLinesAppend(before + [line], after);
    EventsOfLinesAppend(before, after);
    assert (before + [line])[..|before|] == before;
  }

  /** Reading one more line appends the event it parses to, if any. */
  lemma EventsOfLinesNext(lines: seq<string>, j: nat)
    requires j < |lines|
    ensures ParseLine(lines[j]) == None ==> EventsOfLines(lines[..j + 1]) == EventsOfLines(lines[..j])
    ensures ParseLine(lines[j]).Some? ==> EventsOfLines(lines[..j + 1]) == EventsOfLines(lines[..j]) + [ParseLine(lines[j]).value]
  {
    assert lines[..j + 1][..j] == lines[..j];
  }

  /** The counts `get_file_change_stats` reports, the outputs taken in the order given. */
  function FileChangeStats(outputs: seq<string>): (c: Counts)
    ensures c.added + c.modified + c.deleted <= |Paths(EventsOf(outputs))|
    ensures outputs == [] ==> c == Counts(0, 0, 0)
  {
    Stats(EventsOf(outputs))
  }

  /**
    One event applied to the three sets in place, branch by branch as the
    loop body of `get_file_change_stats` does it.
   */
  method TrackEvent(added: set<string>, modified: set<string>, deleted: set<string>, e: FileEvent)
    returns (added': set<string>, modified': set<string>, deleted': set<string>)
    ensures Tracker(added', modified', deleted') == Step(Tracker(added, modified, deleted), e)
  {
    added', modified', deleted' := added, modified, deleted;
    var path := e.path;
    if e.kind == Added {
      if path !in deleted' {
        added' := added' + {path};
        modified' := modified' - {path};
      }
    } else if e.kind == Deleted {
      if path in added' {
        added' := added' - {path};
      } else {
        deleted' := deleted' + {path};
      }
      modified' := modified' - {path};
    } else {
      if path !in added' && path !in deleted' {
        modified' := modified' + {path};
      }
    }
  }

  /** The inner loop of `get_file_change_stats`: one commit's output, line by line. */
  method TrackOutput(added: set<string>, modified: set<string>, deleted: set<string>, output: string)
    returns (added': set<string>, modified': set<string>, deleted': set<string>)
    ensures Tracker(added', modified', deleted') == Run(Tracker(added, modified, deleted), CommitEvents(output))
  {
    added', modified', deleted' := added, modified, deleted;
    var lines := Split(output, '\n');
    var j := 0;
    while j < |lines|
      invariant 0 <= j <= |lines|
      invariant Tracker(added', modified', deleted') == Run(Tracker(added, modified, deleted), EventsOfLines(lines[..j]))
    {
      var event := ParseLine(lines[j]);
      EventsOfLinesNext(lines, j);
      if event.Some? {
        RunSnoc(Tracker(added, modified, deleted), EventsOfLines(lines[..j]), event.value);
        added', modified', deleted' := TrackEvent(added', modified', deleted', event.value);
      }
      j := j + 1;
    }
    assert lines[..j] == lines;
  }

  /**
    The loop of `get_file_change_stats`: three sets updated in place, one diff
    output per commit.
   */
  method GetFileChangeStats(outputs: seq<string>) returns (c: Counts)
    ensures c == FileChangeStats(outputs)
    ensures c.added + c.modified + c.deleted <= |Paths(EventsOf(outputs))|
  {
    var added: set<string> := {};
    var deleted: set<string> := {};
    var modified: set<string> := {};
    var i := 0;
    while i < |outputs|
      invariant 0 <= i <= |outputs|
      invariant Tracker(added, modified, deleted) == Reconcile(EventsOf(outputs[..i]))
    {
      added, modified, deleted := TrackOutput(added, modified, deleted, outputs[i]);
      EventsOfNext(outputs, i);
      RunAppend(Fresh, EventsOf(outputs[..i]), CommitEvents(outputs[i]));
      i := i + 1;
    }
    assert outputs[..i] == outputs;
    c := Counts(|added|, |modified|, |deleted|);
  }
}
