/** The statistics log `stats.txt`: `save_statistics` appends one record
    line per body, in the writer's format, and then one blank line;
    `clear_statistics` truncates the log. The log is the sequence of its
    lines, and each call is a transition from the old log to the new one. */
module Statistics {
  import opened Wrappers
  import opened Text
  import opened Bodies
  import opened Scenario

  /** What one call to `save_statistics` appends: the record lines, then
      the blank separator line. */
  function Block(bodies: seq<Body>): seq<string> {
    WriteScenario(bodies) + ["\n"]
  }

  /** `save_statistics`: the log opened for appending. The old lines stay as
      they are, one line per body follows in the order given, written
      exactly as the scenario writer writes it, and a blank line ends the
      block. */
  function SaveStatistics(log: seq<string>, bodies: seq<Body>): (r: seq<string>)
    ensures |r| == |log| + |bodies| + 1
    ensures r[..|log|] == log
    ensures forall i :: 0 <= i < |bodies| ==> r[|log| + i] == WriteScenario(bodies)[i]
    ensures r[|r| - 1] == "\n"
  {
    log + Block(bodies)
  }

  /** `clear_statistics`: the log opened for writing and left empty. */
  function ClearStatistics(log: seq<string>): (r: seq<string>)
    ensures |r| == 0
  {
    []
  }

  /** One call on the log. */
  datatype LogOp = Save(bodies: seq<Body>) | Clear

  function Apply(log: seq<string>, op: LogOp): seq<string> {
    match op
    case Save(bodies) => SaveStatistics(log, bodies)
    case Clear => ClearStatistics(log)
  }

  /** The log after a run of calls, the first call applied first. */
  function Replay(log: seq<string>, ops: seq<LogOp>): seq<string>
    decreases |ops|
  {
    if |ops| == 0 then log else Replay(Apply(log, ops[0]), ops[1..])
  }

  /** The blocks the saves among `ops` append, in call order. */
  function Saved(ops: seq<LogOp>): seq<string>
    decreases |ops|
  {
    if |ops| == 0 then []
    else (if ops[0].Save? then Block(ops[0].bodies) else []) + Saved(ops[1..])
  }

  predicate NoClear(ops: seq<LogOp>) {
    forall i :: 0 <= i < |ops| ==> !ops[i].Clear?
  }

  // ---------------------------------------------------------------------
  // Properties

  /** Saving the same bodies twice appends the same block twice. */
  lemma SaveTwice(log: seq<string>, bodies: seq<Body>)
    ensures SaveStatistics(SaveStatistics(log, bodies), bodies) == log + Block(bodies) + Block(bodies)
  {
  }

  /** Without a clear, the log only grows: the old lines stay and the saved
      blocks follow in call order. */
  lemma {:induction false} ReplayAppends(log: seq<string>, ops: seq<LogOp>)
    requires NoClear(ops)
    ensures Replay(log, ops) == log + Saved(ops)
    decreases |ops|
  {
    if |ops| > 0 {
      assert !ops[0].Clear?;
      assert NoClear(ops[1..]) by {
        forall i | 0 <= i < |ops[1..]|
          ensures !ops[1..][i].Clear?
        {
          assert ops[1..][i] == ops[i + 1];
        }
      }
      var block := Block(ops[0].bodies);
      ReplayAppends(log + block, ops[1..]);
      assert Saved(ops) == block + Saved(ops[1..]);
      AppendAssoc(log, block, Saved(ops[1..]));
    }
  }

  lemma AppendAssoc(a: seq<string>, b: seq<string>, c: seq<string>)
    ensures (a + b) + c == a + (b + c)
  {
  }

  /** A run of calls split in two is replayed one part after the other. */
  lemma {:induction false} ReplayConcat(log: seq<string>, a: seq<LogOp>, b: seq<LogOp>)
    ensures Replay(log, a + b) == Replay(Replay(log, a), b)
    decreases |a|
  {
    if |a| == 0 {
      assert a + b == b;
    } else {
      assert (a + b)[0] == a[0];
      assert (a + b)[1..] == a[1..] + b;
      ReplayConcat(Apply(log, a[0]), a[1..], b);
    }
  }

  /** After the last clear, the log holds exactly the blocks saved since,
      whatever it held before and whatever came before the clear. */
  lemma ReplayAfterClear(log: seq<string>, before: seq<LogOp>, after: seq<LogOp>)
    requires NoClear(after)
    ensures Replay(log, before + [Clear] + after) == Saved(after)
  {
    ReplayConcat(log, before + [Clear], after);
    ReplayConcat(log, before, [Clear]);
    ReplayAppends([], after);
  }

  /** The scenario loader reads a log back: the blank separator is skipped,
      so a save adds the reloaded bodies after those already logged, with
      no diagnostic. */
  lemma LoadSavedStatistics(log: seq<string>, bodies: seq<Body>)
    requires forall i :: 0 <= i < |bodies| ==> IsWord(bodies[i].color)
    ensures Load(SaveStatistics(log, bodies))
         == Join(Load(log), Ok(Loaded(ReloadAll(bodies), 0)), |log|)
  {
    LoadBlock(bodies);
    LoadConcat(log, Block(bodies));
  }

  /** One saved block loads to the reloaded bodies. */
  lemma LoadBlock(bodies: seq<Body>)
    requires forall i :: 0 <= i < |bodies| ==> IsWord(bodies[i].color)
    ensures Load(Block(bodies)) == Ok(Loaded(ReloadAll(bodies), 0))
  {
    LoadWriteScenario(bodies);
    BlankLineSkipped();
    LoadOne("\n");
    LoadConcat(WriteScenario(bodies), ["\n"]);
    assert ReloadAll(bodies) + [] == ReloadAll(bodies);
  }

  /** The separator line is skipped by the loader. */
  lemma BlankLineSkipped()
    ensures Classify("\n") == Skipped
  {
    assert Split("\n") == Split("\n"[1..]);
  }

  /** A cleared log loads to nothing. */
  lemma LoadClearedStatistics(log: seq<string>)
    ensures Load(ClearStatistics(log)) == Ok(Loaded([], 0))
  {
    OnlySkippedLines(ClearStatistics(log));
  }
}
