/** What repeated runs of the dispatcher do, each run started afresh by the
    scheduler with the cursor file the previous one left behind, and every
    run reading the same, unchanged catalog file. */
module DispatchRuns {
  import opened Wrappers
  import PyStrings
  import opened TelegramBot

  // ---------------------------------------------------------------------
  // One run and the next
  // ---------------------------------------------------------------------

  /** Without a channel file, or with one holding only whitespace, nothing
      is read, sent or written. */
  lemma NoChannelNoWrite(file: CursorFile, channelFile: Option<string>,
                         catalogFile: Option<seq<Course>>, delivery: Delivery)
    requires channelFile.None? || PyStrings.Blank(channelFile.value)
    ensures Cycle(file, LoadChannel(channelFile), catalogFile, delivery) == Step(NoChannel, file)
  {
    LoadChannelSet(channelFile);
    CycleSpec(file, LoadChannel(channelFile), catalogFile, delivery);
  }

  /** A cursor at or past the end of the catalog (an empty catalog included)
      sends nothing and leaves the cursor as it was. */
  lemma NothingNewNoWrite(file: CursorFile, channel: Option<string>,
                          catalogFile: Option<seq<Course>>, delivery: Delivery)
    requires HasChannel(channel)
    requires LoadLastSent(file).Some? && LoadLastSent(file).value >= |LoadCourses(catalogFile)|
    ensures Cycle(file, channel, catalogFile, delivery) == Step(NothingNew, file)
  {
    CycleSpec(file, channel, catalogFile, delivery);
  }

  /** A send that raises leaves the cursor where it was, so the next run,
      if its send returns, announces the very same course. */
  lemma RetryAfterFailure(file: CursorFile, channel: Option<string>,
                          catalogFile: Option<seq<Course>>, delivery: Delivery)
    requires Cycle(file, channel, catalogFile, delivery).outcome.SendFailed?
    ensures var s := Cycle(file, channel, catalogFile, delivery);
      s.file == file
      && Cycle(s.file, channel, catalogFile, Delivered).outcome
         == Sent(s.outcome.index, s.outcome.request)
  {
    CycleSpec(file, channel, catalogFile, delivery);
  }

  /** The three ways one run from the cursor k in `file` may end over `n`
      courses: nothing new; the send of course k raised and the cursor stays;
      or it returned and the cursor moved to k + 1. */
  predicate FollowsCursor(file: CursorFile, n: nat, d: Delivery, s: Step) {
    var k := LoadLastSent(file).GetOr(0);
    if k >= n then s.outcome.NothingNew? && s.file == file
    else if d.Raised? then s.outcome.SendFailed? && s.outcome.index == k && s.file == file
    else s.outcome.Sent? && s.outcome.index == k && s.file == Number(k + 1)
  }

  /** A run from a cursor the bot could have written follows the cursor and
      leaves a cursor the bot could have written. */
  lemma StepFromReachable(file: CursorFile, channel: Option<string>,
                          catalogFile: Option<seq<Course>>, delivery: Delivery)
    requires HasChannel(channel) && Reachable(file)
    ensures var s := Cycle(file, channel, catalogFile, delivery);
      FollowsCursor(file, |LoadCourses(catalogFile)|, delivery, s) && Reachable(s.file)
  {
    CycleSpec(file, channel, catalogFile, delivery);
  }

  /** From a missing or non-negative cursor, after a send that returned, the
      next run attempts the following course, or finds nothing new when the
      announced one was the last. */
  lemma ProgressAfterSuccess(file: CursorFile, channel: Option<string>,
                             catalogFile: Option<seq<Course>>, delivery: Delivery,
                             nextDelivery: Delivery)
    requires Reachable(file)
    requires Cycle(file, channel, catalogFile, delivery).outcome.Sent?
    ensures var s := Cycle(file, channel, catalogFile, delivery);
      var next := Cycle(s.file, channel, catalogFile, nextDelivery).outcome;
      var i := s.outcome.index;
      if i + 1 < |LoadCourses(catalogFile)| then
        (next.Sent? || next.SendFailed?) && next.index == i + 1
      else next.NothingNew?
  {
    CycleSpec(file, channel, catalogFile, delivery);
    var s := Cycle(file, channel, catalogFile, delivery);
    StepFromReachable(file, channel, catalogFile, delivery);
    StepFromReachable(s.file, channel, catalogFile, nextDelivery);
  }

  /** The cursor never goes down: a run leaves it as it was or, after a
      send that returned, one higher. */
  lemma CursorMonotone(file: CursorFile, channel: Option<string>,
                       catalogFile: Option<seq<Course>>, delivery: Delivery)
    requires LoadLastSent(file).Some?
    ensures var s := Cycle(file, channel, catalogFile, delivery);
      LoadLastSent(s.file).Some?
      && LoadLastSent(s.file).value == LoadLastSent(file).value + (if s.outcome.Sent? then 1 else 0)
  {
    CycleSpec(file, channel, catalogFile, delivery);
  }

  /** A cursor the bot could have written stays one it could have written. */
  lemma ReachablePreserved(file: CursorFile, channel: Option<string>,
                           catalogFile: Option<seq<Course>>, delivery: Delivery)
    requires Reachable(file)
    ensures Reachable(Cycle(file, channel, catalogFile, delivery).file)
  {
    CycleSpec(file, channel, catalogFile, delivery);
  }

  // ---------------------------------------------------------------------
  // Any number of runs over one catalog
  // ---------------------------------------------------------------------

  /** The outcomes of a series of runs and the cursor file after the last. */
  datatype Trace = Trace(outcomes: seq<Outcome>, file: CursorFile)

  /** Runs `step` once per entry of `deliveries`, threading the cursor file
      from each run to the next. */
  function RunSteps(step: (CursorFile, Delivery) -> Step, file: CursorFile,
                    deliveries: seq<Delivery>): (t: Trace)
    ensures |t.outcomes| == |deliveries|
    decreases |deliveries|
  {
    if deliveries == [] then Trace([], file)
    else
      var s := step(file, deliveries[0]);
      var rest := RunSteps(step, s.file, deliveries[1..]);
      Trace([s.outcome] + rest.outcomes, rest.file)
  }

  /** The dispatcher run once per entry of `deliveries`, each run with the
      same channel and catalog files. */
  function Run(file: CursorFile, channel: Option<string>,
               catalogFile: Option<seq<Course>>, deliveries: seq<Delivery>): Trace
  {
    RunSteps((f: CursorFile, d: Delivery) => Cycle(f, channel, catalogFile, d), file, deliveries)
  }

  /** The catalog positions announced, in the order the runs made them. */
  function Posted(outcomes: seq<Outcome>): seq<nat> {
    if outcomes == [] then []
    else (if outcomes[0].Sent? then [outcomes[0].index] else []) + Posted(outcomes[1..])
  }

  /** How many of the sends would return if they were made. */
  function CountDelivered(deliveries: seq<Delivery>): nat {
    if deliveries == [] then 0
    else (if deliveries[0].Delivered? then 1 else 0) + CountDelivered(deliveries[1..])
  }

  /** Courses not yet announced when the cursor stands at `k`. */
  function Remaining(k: int, n: nat): nat {
    if k < n then n - k else 0
  }

  function Min(a: nat, b: nat): nat {
    if a < b then a else b
  }

  /** The positions `lo`, `lo + 1`, ..., `lo + count - 1`. */
  function Range(lo: nat, count: nat): (r: seq<nat>)
    ensures |r| == count && forall i :: 0 <= i < count ==> r[i] == lo + i
    decreases count
  {
    if count == 0 then [] else [lo] + Range(lo + 1, count - 1)
  }

  /** How many courses a series of runs from cursor `k` over `n` courses
      announces. */
  function Announced(k: int, n: nat, deliveries: seq<Delivery>): nat {
    Min(Remaining(k, n), CountDelivered(deliveries))
  }

  /** Every run from a cursor the bot could have written follows the cursor. */
  ghost predicate StepFollowsCursor(step: (CursorFile, Delivery) -> Step, n: nat) {
    forall f, d :: Reachable(f) ==> Reachable(step(f, d).file) && FollowsCursor(f, n, d, step(f, d))
  }

  lemma PostedCons(o: Outcome, rest: seq<Outcome>)
    ensures Posted([o] + rest) == (if o.Sent? then [o.index] else []) + Posted(rest)
  {
    assert ([o] + rest)[1..] == rest;
  }

  /** How the number announced changes over one run from cursor `k`. */
  lemma AnnouncedStep(k: int, n: nat, deliveries: seq<Delivery>)
    requires deliveries != []
    ensures Announced(k, n, deliveries)
      == if k < n && deliveries[0].Delivered?
         then 1 + Announced(k + 1, n, deliveries[1..])
         else Announced(k, n, deliveries[1..])
  {
    assert CountDelivered(deliveries)
      == (if deliveries[0].Delivered? then 1 else 0) + CountDelivered(deliveries[1..]);
  }

  lemma RangeCons(lo: nat, count: nat)
    requires count > 0
    ensures Range(lo, count) == [lo] + Range(lo + 1, count - 1)
  {
  }

  /** For any run that follows the cursor, a series of runs from cursor k
      announces exactly k, k + 1, ... : one course for every send that
      returns, until the n courses are used up. */
  lemma {:induction false} StepsPostInOrder(step: (CursorFile, Delivery) -> Step, n: nat,
                                            file: CursorFile, deliveries: seq<Delivery>)
    requires StepFollowsCursor(step, n) && Reachable(file)
    ensures var k := LoadLastSent(file).value;
      Posted(RunSteps(step, file, deliveries).outcomes) == Range(k, Announced(k, n, deliveries))
    decreases |deliveries|
  {
    if deliveries != [] {
      var k := LoadLastSent(file).value;
      var s := step(file, deliveries[0]);
      var rest := RunSteps(step, s.file, deliveries[1..]);
      PostedCons(s.outcome, rest.outcomes);
      assert FollowsCursor(file, n, deliveries[0], s);
      StepsPostInOrder(step, n, s.file, deliveries[1..]);
      AnnouncedStep(k, n, deliveries);
      if s.outcome.Sent? {
        RangeCons(k, Announced(k, n, deliveries));
      }
    }
  }

  /** Every run of the dispatcher with a channel follows the cursor. */
  lemma CycleFollowsCursor(channel: Option<string>, catalogFile: Option<seq<Course>>)
    requires HasChannel(channel)
    ensures StepFollowsCursor((f: CursorFile, d: Delivery) => Cycle(f, channel, catalogFile, d),
                              |LoadCourses(catalogFile)|)
  {
    forall f, d | Reachable(f)
      ensures Reachable(Cycle(f, channel, catalogFile, d).file)
      ensures FollowsCursor(f, |LoadCourses(catalogFile)|, d, Cycle(f, channel, catalogFile, d))
    {
      StepFromReachable(f, channel, catalogFile, d);
    }
  }

  /** From a cursor `k` the bot could have written, a series of runs
      announces exactly the courses k, k + 1, ... in catalog order: one for
      every send that returns, until the catalog is used up. */
  lemma RunPostsInCatalogOrder(file: CursorFile, channel: Option<string>,
                               catalogFile: Option<seq<Course>>, deliveries: seq<Delivery>)
    requires HasChannel(channel) && Reachable(file)
    ensures var k := LoadLastSent(file).value;
      Posted(Run(file, channel, catalogFile, deliveries).outcomes)
      == Range(k, Announced(k, |LoadCourses(catalogFile)|, deliveries))
  {
    CycleFollowsCursor(channel, catalogFile);
    StepsPostInOrder((f: CursorFile, d: Delivery) => Cycle(f, channel, catalogFile, d),
                     |LoadCourses(catalogFile)|, file, deliveries);
  }

  /** Over any series of runs from a readable cursor, the cursor rises by
      exactly the number of courses announced. */
  lemma {:induction false} CursorCountsPosts(file: CursorFile, channel: Option<string>,
                                             catalogFile: Option<seq<Course>>,
                                             deliveries: seq<Delivery>)
    requires LoadLastSent(file).Some?
    ensures var t := Run(file, channel, catalogFile, deliveries);
      LoadLastSent(t.file) == Some(LoadLastSent(file).value + |Posted(t.outcomes)|)
    decreases |deliveries|
  {
    if deliveries != [] {
      var s := Cycle(file, channel, catalogFile, deliveries[0]);
      var rest := Run(s.file, channel, catalogFile, deliveries[1..]);
      assert Run(file, channel, catalogFile, deliveries)
        == Trace([s.outcome] + rest.outcomes, rest.file);
      PostedCons(s.outcome, rest.outcomes);
      CursorMonotone(file, channel, catalogFile, deliveries[0]);
      CursorCountsPosts(s.file, channel, catalogFile, deliveries[1..]);
    }
  }

  /** The cursor a series of runs leaves stands just past the last course
      announced: the starting cursor plus the number announced. */
  lemma RunFinalCursor(file: CursorFile, channel: Option<string>,
                       catalogFile: Option<seq<Course>>, deliveries: seq<Delivery>)
    requires HasChannel(channel) && Reachable(file)
    ensures var k := LoadLastSent(file).value;
      LoadLastSent(Run(file, channel, catalogFile, deliveries).file)
      == Some(k + Announced(k, |LoadCourses(catalogFile)|, deliveries))
  {
    RunPostsInCatalogOrder(file, channel, catalogFile, deliveries);
    CursorCountsPosts(file, channel, catalogFile, deliveries);
  }

  /** No course is announced twice over a series of runs that starts from a
      cursor the bot could have written. */
  lemma PostedAtMostOnce(file: CursorFile, channel: Option<string>,
                         catalogFile: Option<seq<Course>>, deliveries: seq<Delivery>)
    requires HasChannel(channel) && Reachable(file)
    ensures var p := Posted(Run(file, channel, catalogFile, deliveries).outcomes);
      forall i, j :: 0 <= i < j < |p| ==> p[i] < p[j]
  {
    RunPostsInCatalogOrder(file, channel, catalogFile, deliveries);
  }

  /** Every send attempted over a series of runs is the request built from
      the catalog entry at the position it names. */
  lemma {:induction false} RunSendsCatalogEntries(file: CursorFile, channel: Option<string>,
                                                  catalogFile: Option<seq<Course>>,
                                                  deliveries: seq<Delivery>)
    ensures var courses := LoadCourses(catalogFile);
      forall o :: o in Run(file, channel, catalogFile, deliveries).outcomes && (o.Sent? || o.SendFailed?) ==>
        HasChannel(channel) && o.index < |courses|
        && o.request == RequestFor(channel.value, courses[o.index])
    decreases |deliveries|
  {
    if deliveries != [] {
      var s := Cycle(file, channel, catalogFile, deliveries[0]);
      var rest := Run(s.file, channel, catalogFile, deliveries[1..]);
      assert Run(file, channel, catalogFile, deliveries).outcomes == [s.outcome] + rest.outcomes;
      CycleSpec(file, channel, catalogFile, deliveries[0]);
      RunSendsCatalogEntries(s.file, channel, catalogFile, deliveries[1..]);
    }
  }

  // ---------------------------------------------------------------------
  // Particular situations
  // ---------------------------------------------------------------------

  /** A cursor file `int(...)` cannot read stops the run before any send;
      it is not taken as 0. */
  lemma CorruptCursorStops(channel: Option<string>, catalogFile: Option<seq<Course>>,
                           delivery: Delivery)
    requires HasChannel(channel)
    ensures Cycle(Unparsable, channel, catalogFile, delivery) == Step(CursorUnreadable, Unparsable)
  {
    CycleSpec(Unparsable, channel, catalogFile, delivery);
  }

  /** A hand-edited cursor of -1 announces the last course and then writes
      0, so the next run starts again from the first course. */
  lemma NegativeCursorWraps(channel: Option<string>, a: Course, b: Course, c: Course)
    requires HasChannel(channel)
    ensures var cat := Some([a, b, c]);
      var s := Cycle(Number(-1), channel, cat, Delivered);
      s.outcome.Sent? && s.outcome.index == 2 && s.file == Number(0)
      && Cycle(s.file, channel, cat, Delivered).outcome.Sent?
      && Cycle(s.file, channel, cat, Delivered).outcome.index == 0
  {
    var cat := Some([a, b, c]);
    CycleSpec(Number(-1), channel, cat, Delivered);
    assert Select(-1, 3) == At(2);
    StepFromReachable(Number(0), channel, cat, Delivered);
  }
}
