/** The scenario file: `read_space_objects_data_from_file`, which classifies
    every line, skips blank and comment lines, dispatches `star` and
    `planet` lines to their parsers and reports every other line as an
    unknown object; and `write_space_objects_data_to_file`, which writes
    one record line per body. A file is the sequence of its lines, each
    with the newline Python's line iteration leaves on it. */
module Scenario {
  import opened Wrappers
  import opened Text
  import opened Numbers
  import opened Bodies

  /** What the loader does with one line. */
  datatype LineClass =
    | Skipped              // blank, or `#` as the very first character
    | Record(kind: string) // parsed by the star or planet parser
    | Unknown              // "Unknown space object" is printed

  /** The loader's result: the bodies in file order and how many unknown
      object diagnostics were printed along the way. */
  datatype Loaded = Loaded(bodies: seq<Body>, unknown: nat)

  /** The exception that ends a load: the 0-based number of the offending
      line and what its parser raised. */
  datatype LoadError = LoadError(line: nat, reason: FieldError)

  /** The test at the head of the loop body: a line with no token (its
      stripped form is empty), or whose raw first character is `#`, is
      skipped; otherwise its first token, lower-cased, selects the parser. */
  function Classify(line: string): (c: LineClass)
    ensures c.Record? ==> c.kind == "star" || c.kind == "planet"
  {
    var tokens := Split(line);
    if |tokens| == 0 || line[0] == '#' then Skipped
    else if Lower(tokens[0]) == "star" then Record("star")
    else if Lower(tokens[0]) == "planet" then Record("planet")
    else Unknown
  }

  /** What one line contributes to the load. */
  datatype Step =
    | Skip                     // nothing
    | Report                   // one "Unknown space object" diagnostic
    | Add(body: Body)          // one body, appended
    | Fail(reason: FieldError) // the exception that ends the load

  /** The body of the loop for one line: classify it and, for a record
      line, run the parser its kind selects. */
  function LineStep(line: string): (st: Step)
    ensures st.Skip? <==> Classify(line).Skipped?
    ensures st.Report? <==> Classify(line).Unknown?
    ensures st.Add? || st.Fail? <==> Classify(line).Record?
  {
    match Classify(line)
    case Skipped => Skip
    case Unknown => Report
    case Record(kind) =>
      match ParseRecord(line, kind)
      case Ok(b) => Add(b)
      case Err(e) => Fail(e)
  }

  /** `f` applied to every element, in order. */
  function Map<A, B>(f: A -> B, xs: seq<A>): (ys: seq<B>)
    ensures |ys| == |xs|
    ensures forall i :: 0 <= i < |xs| ==> ys[i] == f(xs[i])
  {
    seq(|xs|, i requires 0 <= i < |xs| => f(xs[i]))
  }

  lemma MapConcat<A, B>(f: A -> B, a: seq<A>, b: seq<A>)
    ensures Map(f, a + b) == Map(f, a) + Map(f, b)
  {
    forall i | 0 <= i < |a| + |b|
      ensures Map(f, a + b)[i] == (Map(f, a) + Map(f, b))[i]
    {
      if i < |a| {
        assert (a + b)[i] == a[i];
      } else {
        assert (a + b)[i] == b[i - |a|];
      }
    }
  }

  lemma MapPrefix<A, B>(f: A -> B, xs: seq<A>, n: nat)
    requires n <= |xs|
    ensures Map(f, xs[..n]) == Map(f, xs)[..n]
  {
  }

  /** The contribution of every line, in file order. */
  function Steps(lines: seq<string>): seq<Step> {
    Map(LineStep, lines)
  }

  /** One turn of the loop, on line number `n`: after an exception nothing
      happens any more; otherwise a skipped line changes nothing, an unknown
      line adds one diagnostic, a parsed body is appended and a parser's
      exception ends the load with no partial result. */
  function Next(r: Result<Loaded, LoadError>, st: Step, n: nat): Result<Loaded, LoadError> {
    match r
    case Err(_) => r
    case Ok(s) =>
      match st
      case Skip => r
      case Report => Ok(Loaded(s.bodies, s.unknown + 1))
      case Add(b) => Ok(Loaded(s.bodies + [b], s.unknown))
      case Fail(e) => Err(LoadError(n, e))
  }

  /** The loop over the contributions of a whole file. */
  function Fold(steps: seq<Step>): (r: Result<Loaded, LoadError>)
    ensures r.Err? ==> r.error.line < |steps|
    decreases |steps|
  {
    if |steps| == 0 then Ok(Loaded([], 0))
    else Next(Fold(steps[..|steps| - 1]), steps[|steps| - 1], |steps| - 1)
  }

  /** `read_space_objects_data_from_file` on the lines of a file. */
  function Load(lines: seq<string>): (r: Result<Loaded, LoadError>)
    ensures r.Err? ==> r.error.line < |lines|
  {
    Fold(Steps(lines))
  }

  /** The loop of `read_space_objects_data_from_file`, line by line. */
  method ReadScenario(lines: seq<string>) returns (r: Result<Loaded, LoadError>)
    ensures r == Load(lines)
  {
    var bodies: seq<Body> := [];
    var unknown: nat := 0;
    var i := 0;
    while i < |lines|
      invariant 0 <= i <= |lines|
      invariant Fold(Steps(lines)[..i]) == Ok(Loaded(bodies, unknown))
    {
      ghost var done := Steps(lines)[..i];
      assert Steps(lines)[..i + 1] == done + [LineStep(lines[i])];
      FoldSnoc(done, LineStep(lines[i]));
      match LineStep(lines[i]) {
        case Skip =>
        case Report =>
          unknown := unknown + 1;
        case Add(b) =>
          bodies := bodies + [b];
        case Fail(e) =>
          FoldStops(Steps(lines), i + 1);
          return Err(LoadError(i, e));
      }
      i := i + 1;
    }
    assert Steps(lines)[..i] == Steps(lines);
    r := Ok(Loaded(bodies, unknown));
  }

  // ---------------------------------------------------------------------
  // Reference definitions

  /** The positions of the elements that satisfy `p`, in order. */
  function Indices<T>(p: T -> bool, xs: seq<T>): seq<nat>
    decreases |xs|
  {
    if |xs| == 0 then []
    else
      var n := |xs| - 1;
      Indices(p, xs[..n]) + (if p(xs[n]) then [n] else [])
  }

  /** How many elements satisfy `p`. */
  function Count<T>(p: T -> bool, xs: seq<T>): nat
    decreases |xs|
  {
    if |xs| == 0 then 0
    else
      var n := |xs| - 1;
      Count(p, xs[..n]) + (if p(xs[n]) then 1 else 0)
  }

  predicate IsRecordLine(line: string) {
    Classify(line).Record?
  }

  predicate IsUnknownLine(line: string) {
    Classify(line).Unknown?
  }

  /** The line numbers the loader hands to a parser, in file order. */
  function RecordIndices(lines: seq<string>): seq<nat> {
    Indices(IsRecordLine, lines)
  }

  /** How many lines are reported as unknown objects. */
  function UnknownCount(lines: seq<string>): nat {
    Count(IsUnknownLine, lines)
  }

  /** The record line `lines[i]` parses. */
  predicate RecordParses(lines: seq<string>, i: nat)
    requires i < |lines|
  {
    Classify(lines[i]).Record? ==> ParseRecord(lines[i], Classify(lines[i]).kind).Ok?
  }

  // ---------------------------------------------------------------------
  // Classification

  /** A line is skipped exactly when its stripped form is empty or its raw
      first character is `#`; it is parsed exactly when, besides, its
      lower-cased first token is `star` or `planet`, which is then the kind
      it is parsed as. */
  lemma ClassifyCases(line: string)
    ensures Classify(line) == Skipped <==> |Strip(line)| == 0 || line[0] == '#'
    ensures Classify(line).Record? <==>
              |Strip(line)| != 0 && line[0] != '#'
              && (Lower(Split(line)[0]) == "star" || Lower(Split(line)[0]) == "planet")
    ensures Classify(line).Record? ==> Classify(line).kind == Lower(Split(line)[0])
  {
    StripEmptyIffNoTokens(line);
  }

  /** The loader lower-cases the first token after splitting and the parser
      splits after lower-casing the line; both see the same keyword, which
      is token 0 of the record. */
  lemma ClassifyAgreesWithParser(line: string)
    requires Classify(line).Record?
    ensures |RecordTokens(line)| > 0 && RecordTokens(line)[0] == Classify(line).kind
  {
    SplitLower(line);
  }

  /** A comment marker after leading whitespace does not make a comment:
      a line that starts with whitespace and whose first non-blank
      character is `#` reaches the dispatch, and its first token, which
      starts with `#`, is neither keyword, so it is reported as unknown. */
  lemma IndentedComment(line: string)
    requires |line| > 0 && IsSpace(line[0])
    requires |TrimStart(line)| > 0 && TrimStart(line)[0] == '#'
    ensures Classify(line) == Unknown
  {
    var t := TrimStart(line);
    SplitTrimStart(line);
    var n := WordLength(t);
    assert Split(t) == [t[..n]] + Split(t[n..]);
    var w := Lower(Split(line)[0]);
    assert w[0] == '#';
  }

  // ---------------------------------------------------------------------
  // The loop over contributions

  /** How the result of a first part combines with that of a second part
      that starts at line `offset`. */
  function Join(first: Result<Loaded, LoadError>, second: Result<Loaded, LoadError>, offset: nat)
    : Result<Loaded, LoadError>
  {
    match first
    case Err(e) => Err(e)
    case Ok(s) =>
      match second
      case Err(e) => Err(LoadError(offset + e.line, e.reason))
      case Ok(t) => Ok(Loaded(s.bodies + t.bodies, s.unknown + t.unknown))
  }

  predicate IsKey(st: Step) {
    st.Add? || st.Fail?
  }

  /** The indices of the contributions that come from record lines. */
  function KeyIndices(steps: seq<Step>): seq<nat> {
    Indices(IsKey, steps)
  }

  /** How many contributions are diagnostics. */
  function ReportCount(steps: seq<Step>): nat {
    Count((st: Step) => st.Report?, steps)
  }

  lemma FoldSnoc(steps: seq<Step>, st: Step)
    ensures Fold(steps + [st]) == Next(Fold(steps), st, |steps|)
  {
    assert (steps + [st])[..|steps|] == steps;
  }

  lemma JoinNext(first: Result<Loaded, LoadError>, second: Result<Loaded, LoadError>, st: Step,
                 offset: nat, n: nat)
    ensures Next(Join(first, second, offset), st, offset + n) == Join(first, Next(second, st, n), offset)
  {
    if first.Ok? && second.Ok? && st.Add? {
      var s, t := first.value.bodies, second.value.bodies;
      assert (s + t) + [st.body] == s + (t + [st.body]);
    }
  }

  lemma {:induction false} FoldConcat(a: seq<Step>, b: seq<Step>)
    ensures Fold(a + b) == Join(Fold(a), Fold(b), |a|)
    decreases |b|
  {
    if |b| == 0 {
      assert a + b == a;
      if Fold(a).Ok? {
        assert Fold(a).value.bodies + [] == Fold(a).value.bodies;
      }
    } else {
      var n := |b| - 1;
      var front := b[..n];
      assert a + b == (a + front) + [b[n]];
      assert b == front + [b[n]];
      FoldSnoc(a + front, b[n]);
      FoldConcat(a, front);
      JoinNext(Fold(a), Fold(front), b[n], |a|, n);
      FoldSnoc(front, b[n]);
    }
  }

  /** Once the loop has stopped on an exception, the rest of the file does
      not matter. */
  lemma FoldStops(steps: seq<Step>, n: nat)
    requires n <= |steps| && Fold(steps[..n]).Err?
    ensures Fold(steps) == Fold(steps[..n])
  {
    FoldConcat(steps[..n], steps[n..]);
    assert steps[..n] + steps[n..] == steps;
  }

  lemma {:induction false} FoldSucceedsIff(steps: seq<Step>)
    ensures Fold(steps).Ok? <==> forall i :: 0 <= i < |steps| ==> !steps[i].Fail?
    decreases |steps|
  {
    if |steps| > 0 {
      var n := |steps| - 1;
      FoldSucceedsIff(steps[..n]);
      assert forall i :: 0 <= i < n ==> steps[..n][i] == steps[i];
    }
  }

  lemma {:induction false} FoldFailsAtFirst(steps: seq<Step>)
    requires Fold(steps).Err?
    ensures var i := Fold(steps).error.line;
            && i < |steps| && steps[i] == Fail(Fold(steps).error.reason)
            && forall j :: 0 <= j < i ==> !steps[j].Fail?
    decreases |steps|
  {
    var n := |steps| - 1;
    assert forall i :: 0 <= i < n ==> steps[..n][i] == steps[i];
    if Fold(steps[..n]).Err? {
      FoldFailsAtFirst(steps[..n]);
    } else {
      FoldSucceedsIff(steps[..n]);
      forall j | 0 <= j < n
        ensures !steps[j].Fail?
      {
        assert steps[..n][j] == steps[j];
      }
    }
  }

  lemma {:induction false} FoldInOrder(steps: seq<Step>)
    requires Fold(steps).Ok?
    ensures var s, idx := Fold(steps).value, KeyIndices(steps);
            && |s.bodies| == |idx|
            && (forall k :: 0 <= k < |idx| ==> idx[k] < |steps| && steps[idx[k]] == Add(s.bodies[k]))
            && s.unknown == ReportCount(steps)
    decreases |steps|
  {
    if |steps| > 0 {
      var n := |steps| - 1;
      FoldInOrder(steps[..n]);
      assert forall i :: 0 <= i < n ==> steps[..n][i] == steps[i];
    }
  }

  lemma {:induction false} FoldSkips(steps: seq<Step>)
    requires forall i :: 0 <= i < |steps| ==> steps[i] == Skip
    ensures Fold(steps) == Ok(Loaded([], 0))
    decreases |steps|
  {
    if |steps| > 0 {
      var n := |steps| - 1;
      assert forall i :: 0 <= i < n ==> steps[..n][i] == steps[i];
      FoldSkips(steps[..n]);
    }
  }

  /** A run of bodies to append, with nothing else, loads to those bodies. */
  lemma {:induction false} FoldAdds(steps: seq<Step>, bodies: seq<Body>)
    requires |steps| == |bodies|
    requires forall i :: 0 <= i < |steps| ==> steps[i] == Add(bodies[i])
    ensures Fold(steps) == Ok(Loaded(bodies, 0))
    decreases |steps|
  {
    if |steps| > 0 {
      var n := |steps| - 1;
      FoldAdds(steps[..n], bodies[..n]);
      assert bodies[..n] + [bodies[n]] == bodies;
    }
  }

  // ---------------------------------------------------------------------
  // Properties of the loader

  lemma StepsConcat(a: seq<string>, b: seq<string>)
    ensures Steps(a + b) == Steps(a) + Steps(b)
  {
    MapConcat(LineStep, a, b);
  }

  lemma LoadOne(line: string)
    ensures Load([line]) == Next(Ok(Loaded([], 0)), LineStep(line), 0)
  {
    assert Steps([line]) == [] + [LineStep(line)];
    FoldSnoc([], LineStep(line));
  }

  /** Loading a concatenation: the first part's error wins; otherwise the
      second part is loaded on its own, its bodies follow the first part's,
      its diagnostics add up and its error line numbers move by the length
      of the first part. */
  lemma LoadConcat(a: seq<string>, b: seq<string>)
    ensures Load(a + b) == Join(Load(a), Load(b), |a|)
  {
    StepsConcat(a, b);
    FoldConcat(Steps(a), Steps(b));
  }

  /** A skipped line leaves no trace: removing it changes neither the
      bodies nor the diagnostics, nor whether the load succeeds. */
  lemma SkippedLineInvisible(a: seq<string>, line: string, b: seq<string>)
    requires Classify(line) == Skipped
    ensures Load(a + [line] + b).Ok? <==> Load(a + b).Ok?
    ensures Load(a + [line] + b).Ok? ==> Load(a + [line] + b).value == Load(a + b).value
  {
    LoadOne(line);
    LoadConcat(a, [line]);
    LoadConcat(a + [line], b);
    LoadConcat(a, b);
    if Load(a).Ok? {
      assert Load(a).value.bodies + [] == Load(a).value.bodies;
    }
  }

  /** An unknown line adds exactly one diagnostic and no body, and the
      lines after it are still loaded. */
  lemma UnknownLineCounted(a: seq<string>, line: string, b: seq<string>)
    requires Classify(line) == Unknown
    ensures Load(a + [line] + b).Ok? <==> Load(a + b).Ok?
    ensures Load(a + [line] + b).Ok? ==>
              Load(a + [line] + b).value.bodies == Load(a + b).value.bodies
              && Load(a + [line] + b).value.unknown == Load(a + b).value.unknown + 1
  {
    LoadOne(line);
    LoadConcat(a, [line]);
    LoadConcat(a + [line], b);
    LoadConcat(a, b);
    if Load(a).Ok? {
      assert Load(a).value.bodies + [] == Load(a).value.bodies;
    }
  }

  /** A record line with fewer than eight tokens aborts the whole load at
      that line, whatever was loaded before it and whatever follows. */
  lemma ShortRecordAbortsLoad(a: seq<string>, line: string, b: seq<string>)
    requires Load(a).Ok? && Classify(line).Record? && |RecordTokens(line)| < 8
    ensures Load(a + [line] + b).Err? && Load(a + [line] + b).error.line == |a|
  {
    assert LineStep(line).Fail?;
    LoadOne(line);
    LoadConcat(a, [line]);
    LoadConcat(a + [line], b);
  }

  /** A file of blank and comment lines loads to nothing. */
  lemma OnlySkippedLines(lines: seq<string>)
    requires forall i :: 0 <= i < |lines| ==> Classify(lines[i]) == Skipped
    ensures Load(lines) == Ok(Loaded([], 0))
  {
    FoldSkips(Steps(lines));
  }

  /** The load succeeds exactly when every record line parses. */
  lemma LoadSucceedsIff(lines: seq<string>)
    ensures Load(lines).Ok? <==> forall i :: 0 <= i < |lines| ==> RecordParses(lines, i)
  {
    FoldSucceedsIff(Steps(lines));
    forall i | 0 <= i < |lines|
      ensures Steps(lines)[i].Fail? <==> !RecordParses(lines, i)
    {
      assert Steps(lines)[i] == LineStep(lines[i]);
    }
  }

  /** A failed load names the first record line whose parser raised, with
      what it raised. */
  lemma LoadFailsAtFirst(lines: seq<string>)
    requires Load(lines).Err?
    ensures var i := Load(lines).error.line;
            && i < |lines| && Classify(lines[i]).Record?
            && ParseRecord(lines[i], Classify(lines[i]).kind) == Err(Load(lines).error.reason)
            && forall j :: 0 <= j < i ==> RecordParses(lines, j)
  {
    FoldFailsAtFirst(Steps(lines));
  }

  /** The record line numbers are increasing and are exactly the lines
      classified as records. */
  lemma RecordIndicesExact(lines: seq<string>)
    ensures forall k :: 0 <= k < |RecordIndices(lines)| ==>
              RecordIndices(lines)[k] < |lines| && Classify(lines[RecordIndices(lines)[k]]).Record?
    ensures forall k, l :: 0 <= k < l < |RecordIndices(lines)| ==> RecordIndices(lines)[k] < RecordIndices(lines)[l]
    ensures forall i :: 0 <= i < |lines| && Classify(lines[i]).Record? ==> i in RecordIndices(lines)
  {
    IndicesExact(IsRecordLine, lines);
  }

  /** `Indices(p, xs)` lists, in increasing order, exactly the positions of
      the elements of `xs` that satisfy `p`. */
  lemma {:induction false} IndicesExact<T>(p: T -> bool, xs: seq<T>)
    ensures forall k :: 0 <= k < |Indices(p, xs)| ==> Indices(p, xs)[k] < |xs| && p(xs[Indices(p, xs)[k]])
    ensures forall k, l :: 0 <= k < l < |Indices(p, xs)| ==> Indices(p, xs)[k] < Indices(p, xs)[l]
    ensures forall i :: 0 <= i < |xs| && p(xs[i]) ==> i in Indices(p, xs)
    decreases |xs|
  {
    if |xs| > 0 {
      var n := |xs| - 1;
      IndicesExact(p, xs[..n]);
      assert forall i :: 0 <= i < n ==> xs[..n][i] == xs[i];
    }
  }

  /** Selecting positions by `q` on `xs` is selecting them by `p` on the
      images under `f`, when `q` is `p` after `f`. */
  lemma {:induction false} IndicesMap<A, B>(q: A -> bool, p: B -> bool, f: A -> B, xs: seq<A>)
    requires forall x :: q(x) == p(f(x))
    ensures Indices(q, xs) == Indices(p, Map(f, xs))
    ensures Count(q, xs) == Count(p, Map(f, xs))
    decreases |xs|
  {
    if |xs| > 0 {
      var n := |xs| - 1;
      IndicesMap(q, p, f, xs[..n]);
      MapPrefix(f, xs, n);
    }
  }

  lemma RecordIndicesSteps(lines: seq<string>)
    ensures RecordIndices(lines) == KeyIndices(Steps(lines))
    ensures UnknownCount(lines) == ReportCount(Steps(lines))
  {
    IndicesMap(IsRecordLine, IsKey, LineStep, lines);
    IndicesMap(IsUnknownLine, (st: Step) => st.Report?, LineStep, lines);
  }

  /** Order is preserved: the k-th body is what the parser made of the k-th
      record line, there is one body per record line, and the diagnostics
      count the unknown lines. */
  lemma LoadInOrder(lines: seq<string>)
    requires Load(lines).Ok?
    ensures var s, idx := Load(lines).value, RecordIndices(lines);
            && |s.bodies| == |idx|
            && (forall k :: 0 <= k < |idx| ==>
                  && idx[k] < |lines| && Classify(lines[idx[k]]).Record?
                  && ParseRecord(lines[idx[k]], Classify(lines[idx[k]]).kind) == Ok(s.bodies[k]))
            && s.unknown == UnknownCount(lines)
  {
    var s, idx := Load(lines).value, RecordIndices(lines);
    FoldInOrder(Steps(lines));
    RecordIndicesSteps(lines);
    forall k | 0 <= k < |idx|
      ensures && idx[k] < |lines| && Classify(lines[idx[k]]).Record?
              && ParseRecord(lines[idx[k]], Classify(lines[idx[k]]).kind) == Ok(s.bodies[k])
    {
      assert Steps(lines)[idx[k]] == LineStep(lines[idx[k]]);
    }
  }

  // ---------------------------------------------------------------------
  // The writer

  /** `write_space_objects_data_to_file`: one record line per body, in the
      order given. */
  function WriteScenario(bodies: seq<Body>): (lines: seq<string>)
    ensures |lines| == |bodies|
    ensures forall i :: 0 <= i < |bodies| ==> lines[i] == FormatRecord(bodies[i])
  {
    seq(|bodies|, i requires 0 <= i < |bodies| => FormatRecord(bodies[i]))
  }

  /** A written line is a record line of the kind its tag names: it has
      eight tokens, the first being `Star` exactly for a star and `Planet`
      otherwise, and it ends with a space and the newline. */
  lemma WrittenLine(b: Body)
    requires IsWord(b.color)
    ensures var t := Split(FormatRecord(b));
            && |t| == 8 && t[0] == (if b.kind == "star" then "Star" else "Planet")
    ensures |FormatRecord(b)| >= 2 && FormatRecord(b)[|FormatRecord(b)| - 2..] == " \n"
    ensures Classify(FormatRecord(b)) == Record(Reloaded(b).kind)
  {
    WrittenFirstToken(b);
    FormatRecordEnds(b);
    FormatRecordHead(b);
    TagWord(b.kind);
    ClassifyByFirstToken(FormatRecord(b), Tag(b.kind));
  }

  lemma WrittenFirstToken(b: Body)
    requires IsWord(b.color)
    ensures |Split(FormatRecord(b))| == 8 && Split(FormatRecord(b))[0] == Tag(b.kind)
  {
    FormatRecordTokens(b);
    EightIndices(Split(FormatRecord(b)), Tag(b.kind), FormatInt(b.radius), b.color, FormatRepr(b.mass),
                 FormatFixed(b.x), FormatFixed(b.y), FormatFixed(b.vx), FormatFixed(b.vy));
  }

  lemma FormatRecordHead(b: Body)
    ensures |FormatRecord(b)| > 0 && FormatRecord(b)[0] == Tag(b.kind)[0]
  {
    JoinWordsHead(Fields(b));
  }

  /** A line with a token whose first character is not `#` is classified by
      its first token. */
  lemma ClassifyByFirstToken(line: string, t: string)
    requires |Split(line)| > 0 && Split(line)[0] == t
    requires |line| > 0 && line[0] != '#'
    ensures Classify(line) == (if Lower(t) == "star" then Record("star")
                               else if Lower(t) == "planet" then Record("planet") else Unknown)
  {
  }

  /** A written line reads back as the reloaded body. */
  lemma WrittenLineStep(b: Body)
    requires IsWord(b.color)
    ensures LineStep(FormatRecord(b)) == Add(Reloaded(b))
  {
    WrittenLine(b);
    ParseFormatRecord(b);
  }

  /** Reading back what the writer wrote gives the reloaded bodies, in the
      same order, with no diagnostic. */
  lemma LoadWriteScenario(bodies: seq<Body>)
    requires forall i :: 0 <= i < |bodies| ==> IsWord(bodies[i].color)
    ensures Load(WriteScenario(bodies)) == Ok(Loaded(ReloadAll(bodies), 0))
  {
    var steps := Steps(WriteScenario(bodies));
    forall i | 0 <= i < |bodies|
      ensures steps[i] == Add(ReloadAll(bodies)[i])
    {
      WrittenLineStep(bodies[i]);
    }
    FoldAdds(steps, ReloadAll(bodies));
  }

  /** Bodies already in the form the format keeps are read back exactly. */
  lemma LoadWriteScenarioExact(bodies: seq<Body>)
    requires forall i :: 0 <= i < |bodies| ==> IsWord(bodies[i].color) && Reloaded(bodies[i]) == bodies[i]
    ensures Load(WriteScenario(bodies)) == Ok(Loaded(bodies, 0))
  {
    LoadWriteScenario(bodies);
    ReloadAllFixed(bodies);
  }

  lemma ReloadAllFixed(bodies: seq<Body>)
    requires forall i :: 0 <= i < |bodies| ==> Reloaded(bodies[i]) == bodies[i]
    ensures ReloadAll(bodies) == bodies
  {
  }

  /** Every body as it reads back from a written line. */
  function ReloadAll(bodies: seq<Body>): (r: seq<Body>)
    ensures |r| == |bodies|
    ensures forall i :: 0 <= i < |bodies| ==> r[i] == Reloaded(bodies[i])
  {
    seq(|bodies|, i requires 0 <= i < |bodies| => Reloaded(bodies[i]))
  }
}
