/**
 * Messages gathered from the settlement chain (crates/katana/messaging/src): the cursor over its blocks, and
 * the one gather that may be in flight while the chain grows and requests fail.
 */
module Messaging {
  import opened Wrappers
  import opened Sequences

  datatype Mode = Ethereum | Starknet | Sovereign

  /** A log or an event; one without a block number is not settled yet. */
  datatype Event = Event(block: Option<nat>, body: seq<nat>)

  type Message = seq<nat>

  /** What the settlement chain holds for good, and which events convert into an L1 handler transaction. */
  datatype Chain = Chain(log: nat -> seq<Event>, convert: Event -> Option<Message>)

  const MAX_BLOCKS: nat := 200

  /** The last block of a gather: at most `max` past the first, unless the head is just behind that. */
  function ToBlock(from: nat, max: nat, latest: nat): (to: nat) {
    if from + max + 1 < latest then from + max else latest
  }

  /** Events without a block number are skipped. */
  function Numbered(es: seq<Event>): (r: seq<Event>) {
    if es == [] then []
    else if es[0].block.Some? then [es[0]] + Numbered(es[1..])
    else Numbered(es[1..])
  }

  /** The transactions of the events that convert. */
  function ConvertAll(chain: Chain, es: seq<Event>): (r: seq<Message>) {
    if es == [] then []
    else
      match chain.convert(es[0])
      case Some(m) => [m] + ConvertAll(chain, es[1..])
      case None => ConvertAll(chain, es[1..])
  }

  /** The events of the blocks from `lo` up to, but not including, `hi`. */
  function EventsIn(chain: Chain, lo: nat, hi: nat): (r: seq<Event>)
    decreases hi
  {
    if hi <= lo then [] else EventsIn(chain, lo, hi - 1) + chain.log(hi - 1)
  }

  function MessagesIn(chain: Chain, lo: nat, hi: nat): (r: seq<Message>) {
    ConvertAll(chain, EventsIn(chain, lo, hi))
  }

  // ----- one gather -----

  /** A range may hold `max + 2` blocks, and does exactly when the head is `max + 1` blocks past its start. */
  lemma RangeBounds(from: nat, max: nat, latest: nat)
    ensures from <= latest + 1 ==> from <= ToBlock(from, max, latest) + 1 <= latest + 1
    ensures ToBlock(from, max, latest) + 1 - from <= max + 2
    ensures ToBlock(from, max, latest) + 1 - from == max + 2 <==> latest == from + max + 1
  {
  }

  /** The cursor after a successful gather never falls behind, if and only if it was at most one past the head. */
  lemma CursorRegressesIff(from: nat, max: nat, latest: nat)
    ensures ToBlock(from, max, latest) + 1 >= from <==> from <= latest + 1
    ensures ToBlock(from, max, latest) + 1 > from <==> from <= latest
  {
  }

  // ----- the service and its surroundings as a state machine -----

  /** A gather in flight: the first block asked for, and the head it was told, once it was told. */
  datatype Flight = Flight(from: nat, latest: Option<nat>)

  /** `ranges` lists the first and the last block of each successful gather. */
  datatype State = State(
    cursor: nat,
    flight: Option<Flight>,
    head: nat,
    pool: seq<Message>,
    ranges: seq<(nat, nat)>,
    crashed: bool)

  datatype Step =
    | Grow(head: nat)
    | Tick
    | HeightFails
    | HeightComes
    | FetchFails
    | FetchComes(events: seq<Event>)

  /** No height has come yet, or it has. */
  predicate AwaitsHeight(s: State) {
    s.flight.Some? && s.flight.value.latest.None?
  }

  predicate AwaitsEvents(s: State) {
    s.flight.Some? && s.flight.value.latest.Some?
  }

  /** The provider answers a range with the events of its blocks; others that have no block number may be mixed in. */
  ghost predicate Enabled(chain: Chain, max: nat, s: State, step: Step) {
    && !s.crashed
    && match step
       case Grow(head) => s.head <= head
       case Tick => true
       case HeightFails => AwaitsHeight(s)
       case HeightComes => AwaitsHeight(s)
       case FetchFails => AwaitsEvents(s)
       case FetchComes(events) =>
         && AwaitsEvents(s)
         && var f := s.flight.value;
         && Numbered(events) == EventsIn(chain, f.from, ToBlock(f.from, max, f.latest.value) + 1)
  }

  /** A successful gather of the blocks from the cursor to `last`. */
  function Succeed(s: State, last: nat, messages: seq<Message>): (r: State)
    requires s.flight.Some?
  {
    s.(cursor := last + 1, flight := None, pool := s.pool + messages,
    ranges := s.ranges + [(s.flight.value.from, last)])
  }

  function After(mode: Mode, chain: Chain, max: nat, s: State, step: Step): (r: State) {
    match step
    case Grow(head) => s.(head := head)
    case Tick => if s.flight.None? then s.(flight := Some(Flight(s.cursor, None))) else s
    case HeightFails => s.(flight := None)
    case HeightComes =>
      if s.flight.None? then s
      else if mode == Sovereign then Succeed(s, 0, [])
      else if mode == Starknet && s.flight.value.from > s.head then Succeed(s, s.head, [])
      else s.(flight := Some(s.flight.value.(latest := Some(s.head))))
    case FetchFails => s.(flight := None, crashed := mode == Starknet)
    case FetchComes(events) =>
      if !AwaitsEvents(s) then s
      else
        var f := s.flight.value;
        Succeed(s, ToBlock(f.from, max, f.latest.value), ConvertAll(chain, Numbered(events)))
  }

  function Start(from: nat, head: nat): (s: State) {
    State(from, None, head, [], [], false)
  }

  /** `s` leads to `t` by the steps, each possible when its turn comes. */
  ghost predicate Leads(mode: Mode, chain: Chain, max: nat, s: State, steps: seq<Step>, t: State)
    decreases |steps|
  {
    if steps == [] then s == t
    else
      var last := |steps| - 1;
      exists u :: Leads(mode, chain, max, s, steps[..last], u) && Enabled(chain, max, u, steps[last])
                  && t == After(mode, chain, max, u, steps[last])
  }

  // ----- every block once -----

  /** The ranges follow one another from `start` up to, but not including, `end`. */
  ghost predicate Consecutive(ranges: seq<(nat, nat)>, start: nat, end: nat, max: nat)
    decreases |ranges|
  {
    if ranges == [] then start == end
    else
      var (from, to) := ranges[|ranges| - 1];
      && start <= from <= to + 1 == end && end - from <= max + 2
      && Consecutive(ranges[..|ranges| - 1], start, from, max)
  }

  /** Where everything stands: the blocks from the start to the cursor are gathered, each once and in order. */
  ghost predicate Inv(chain: Chain, max: nat, start: nat, s: State) {
    && start <= s.cursor <= s.head + 1
    && s.pool == MessagesIn(chain, start, s.cursor)
    && Consecutive(s.ranges, start, s.cursor, max)
    && (s.flight.Some? ==> s.flight.value.from == s.cursor)
    && (AwaitsEvents(s) ==> s.flight.value.latest.value <= s.head && s.cursor <= s.flight.value.latest.value + 1)
  }

  lemma {:induction false} EventsSplit(chain: Chain, lo: nat, mid: nat, hi: nat)
    requires lo <= mid <= hi
    ensures EventsIn(chain, lo, mid) + EventsIn(chain, mid, hi) == EventsIn(chain, lo, hi)
    decreases hi
  {
    if mid == hi {
      assert EventsIn(chain, mid, hi) == [];
      assert EventsIn(chain, lo, mid) + [] == EventsIn(chain, lo, mid);
    } else {
      EventsSplit(chain, lo, mid, hi - 1);
      Associate(EventsIn(chain, lo, mid), EventsIn(chain, mid, hi - 1), chain.log(hi - 1));
    }
  }

  lemma {:induction false} ConvertAppend(chain: Chain, xs: seq<Event>, ys: seq<Event>)
    ensures ConvertAll(chain, xs + ys) == ConvertAll(chain, xs) + ConvertAll(chain, ys)
  {
    if xs == [] {
      assert xs + ys == ys;
    } else {
      assert (xs + ys)[1..] == xs[1..] + ys;
      ConvertAppend(chain, xs[1..], ys);
    }
  }

  lemma MessagesSplit(chain: Chain, lo: nat, mid: nat, hi: nat)
    requires lo <= mid <= hi
    ensures MessagesIn(chain, lo, mid) + MessagesIn(chain, mid, hi) == MessagesIn(chain, lo, hi)
  {
    EventsSplit(chain, lo, mid, hi);
    ConvertAppend(chain, EventsIn(chain, lo, mid), EventsIn(chain, mid, hi));
  }

  lemma OneMoreRange(ranges: seq<(nat, nat)>, start: nat, from: nat, to: nat, max: nat)
    requires Consecutive(ranges, start, from, max) && start <= from <= to + 1 && to + 1 - from <= max + 2
    ensures Consecutive(ranges + [(from, to)], start, to + 1, max)
  {
    assert (ranges + [(from, to)])[..|ranges|] == ranges;
  }

  lemma SuccessKeepsInv(chain: Chain, max: nat, start: nat, s: State, last: nat)
    requires Inv(chain, max, start, s) && s.flight.Some?
    requires s.cursor <= last + 1 <= s.head + 1 && last + 1 - s.cursor <= max + 2
    ensures Inv(chain, max, start, Succeed(s, last, MessagesIn(chain, s.cursor, last + 1)))
  {
    MessagesSplit(chain, start, s.cursor, last + 1);
    OneMoreRange(s.ranges, start, s.cursor, last, max);
  }

  lemma StepKeepsInv(mode: Mode, chain: Chain, max: nat, start: nat, s: State, step: Step)
    requires mode != Sovereign && Inv(chain, max, start, s) && Enabled(chain, max, s, step)
    ensures Inv(chain, max, start, After(mode, chain, max, s, step))
  {
    if step.HeightComes? && mode == Starknet && s.flight.value.from > s.head {
      assert EventsIn(chain, s.cursor, s.head + 1) == [];
      SuccessKeepsInv(chain, max, start, s, s.head);
    } else if step.FetchComes? {
      var f := s.flight.value;
      RangeBounds(f.from, max, f.latest.value);
      SuccessKeepsInv(chain, max, start, s, ToBlock(f.from, max, f.latest.value));
    }
  }

  /**
   * If heights never decrease and the cursor starts at most one past the head, then in every run, whatever
   * fails, the messages added are exactly those of the blocks from the start to the cursor, each block once and
   * in order; the successful ranges follow one another and have at most `max + 2` blocks.
   */
  lemma {:induction false} BlocksCoveredOnce(mode: Mode, chain: Chain, max: nat, start: nat, head: nat,
                                             steps: seq<Step>, t: State)
    requires mode != Sovereign && start <= head + 1
    requires Leads(mode, chain, max, Start(start, head), steps, t)
    ensures Inv(chain, max, start, t)
    decreases |steps|
  {
    if steps == [] {
      assert EventsIn(chain, start, start) == [];
    } else {
      var last := |steps| - 1;
      var u :| Leads(mode, chain, max, Start(start, head), steps[..last], u) && Enabled(chain, max, u, steps[last])
               && t == After(mode, chain, max, u, steps[last]);
      BlocksCoveredOnce(mode, chain, max, start, head, steps[..last], u);
      StepKeepsInv(mode, chain, max, start, u, steps[last]);
    }
  }

  /** What consecutive ranges mean for a single block: it is in one range if it lies before the cursor, else in none. */
  ghost function RangesWith(ranges: seq<(nat, nat)>, block: nat): (n: nat) {
    if ranges == [] then 0
    else
      var (from, to) := ranges[|ranges| - 1];
      RangesWith(ranges[..|ranges| - 1], block) + (if from <= block <= to then 1 else 0)
  }

  lemma {:induction false} EachBlockInOneRange(ranges: seq<(nat, nat)>, start: nat, end: nat, max: nat, block: nat)
    requires Consecutive(ranges, start, end, max)
    ensures start <= end && RangesWith(ranges, block) == if start <= block < end then 1 else 0
    decreases |ranges|
  {
    if ranges != [] {
      EachBlockInOneRange(ranges[..|ranges| - 1], start, ranges[|ranges| - 1].0, max, block);
    }
  }

  /** A step that is not a success changes neither the cursor nor what was gathered. */
  lemma OnlySuccessMoves(mode: Mode, chain: Chain, max: nat, s: State, step: Step)
    requires Enabled(chain, max, s, step)
    ensures var t := After(mode, chain, max, s, step);
            |t.ranges| == |s.ranges| ==> t.cursor == s.cursor && t.pool == s.pool && t.ranges == s.ranges
    ensures step.HeightFails? || step.FetchFails? ==> |After(mode, chain, max, s, step).ranges| == |s.ranges|
  {
  }

  // ----- progress -----

  /** Whatever is in flight was told the head, or will be. */
  predicate UpToDate(s: State) {
    AwaitsEvents(s) ==> s.flight.value.latest.value == s.head
  }

  /** The blocks still to be gathered after `n` successes that covered `max + 1` blocks each. */
  function Left(remaining: int, n: nat, max: nat): (r: int) {
    remaining - n * (max + 1)
  }

  lemma LeftAfterOneMore(remaining: int, n: nat, max: nat)
    ensures Left(remaining, n + 1, max) == Left(remaining, n, max) - (max + 1)
    ensures Left(remaining, 0, max) == remaining
  {
  }

  /** Between `s` and `t`, every success but the last covered `max + 1` blocks. */
  ghost predicate Progressed(s: State, t: State, max: nat) {
    && UpToDate(t) && t.head == s.head && |t.ranges| >= |s.ranges|
    && (t.head + 1 - t.cursor <= Left(s.head + 1 - s.cursor, |t.ranges| - |s.ranges|, max) || t.cursor == t.head + 1)
  }

  lemma StepProgress(mode: Mode, chain: Chain, max: nat, start: nat, s: State, u: State, step: Step)
    requires mode != Sovereign && Inv(chain, max, start, u) && Progressed(s, u, max)
    requires Enabled(chain, max, u, step) && !step.Grow?
    ensures Progressed(s, After(mode, chain, max, u, step), max)
  {
    LeftAfterOneMore(s.head + 1 - s.cursor, |u.ranges| - |s.ranges|, max);
  }

  /** While the head stands still, successes bring it nearer by `max + 1` blocks each, or reach it. */
  lemma {:induction false} SuccessesProgress(mode: Mode, chain: Chain, max: nat, start: nat, s: State,
                                             steps: seq<Step>, t: State)
    requires mode != Sovereign && Inv(chain, max, start, s) && UpToDate(s)
    requires (forall step <- steps :: !step.Grow?) && Leads(mode, chain, max, s, steps, t)
    ensures Inv(chain, max, start, t) && Progressed(s, t, max)
    decreases |steps|
  {
    if steps == [] {
      LeftAfterOneMore(s.head + 1 - s.cursor, 0, max);
    } else {
      var last := |steps| - 1;
      var u :| Leads(mode, chain, max, s, steps[..last], u) && Enabled(chain, max, u, steps[last])
               && t == After(mode, chain, max, u, steps[last]);
      SuccessesProgress(mode, chain, max, start, s, steps[..last], u);
      StepKeepsInv(mode, chain, max, start, u, steps[last]);
      StepProgress(mode, chain, max, start, s, u, steps[last]);
    }
  }

  /** A head that stands still is reached in no more successes than it takes to cover what remains, rounded up. */
  lemma HeadIsReached(mode: Mode, chain: Chain, max: nat, start: nat, s: State, steps: seq<Step>, t: State)
    requires mode != Sovereign && Inv(chain, max, start, s) && UpToDate(s)
    requires (forall step <- steps :: !step.Grow?) && Leads(mode, chain, max, s, steps, t)
    requires |t.ranges| >= |s.ranges| && Left(s.head + 1 - s.cursor, |t.ranges| - |s.ranges|, max) <= 0
    ensures t.cursor == s.head + 1 && t.pool == MessagesIn(chain, start, s.head + 1)
  {
    SuccessesProgress(mode, chain, max, start, s, steps, t);
  }

  // ----- starting ahead of the head -----

  /** No run takes the cursor back before the configured start. */
  ghost predicate NeverBeforeStart(mode: Mode, chain: Chain, max: nat, start: nat, head: nat) {
    forall steps, t :: Leads(mode, chain, max, Start(start, head), steps, t) ==> start <= t.cursor
  }

  /**
   * A cursor configured further ahead is pulled back to the head by the first gather: blocks before the
   * configured start are then gathered after all.
   */
  lemma StartAheadIsPulledBack(mode: Mode, chain: Chain, max: nat, start: nat, head: nat)
    returns (steps: seq<Step>, t: State)
    requires mode != Sovereign && start > head + 1
    ensures Leads(mode, chain, max, Start(start, head), steps, t) && t.cursor == head + 1
  {
    var s := Start(start, head);
    var u := After(mode, chain, max, s, Tick);
    LeadsFurther(mode, chain, max, s, [], s, Tick);
    LeadsFurther(mode, chain, max, s, [] + [Tick], u, HeightComes);
    steps, t := [] + [Tick] + [HeightComes], After(mode, chain, max, u, HeightComes);
    if mode == Ethereum {
      LeadsFurther(mode, chain, max, s, steps, t, FetchComes([]));
      steps, t := steps + [FetchComes([])], After(mode, chain, max, t, FetchComes([]));
    }
  }

  lemma LeadsFurther(mode: Mode, chain: Chain, max: nat, s: State, steps: seq<Step>, u: State, step: Step)
    requires Leads(mode, chain, max, s, steps, u) && Enabled(chain, max, u, step)
    ensures Leads(mode, chain, max, s, steps + [step], After(mode, chain, max, u, step))
  {
    assert (steps + [step])[..|steps|] == steps;
  }

  /** The configured start is respected, whatever happens, if and only if it is at most one past the head. */
  lemma StartIsRespectedIff(mode: Mode, chain: Chain, max: nat, start: nat, head: nat)
    requires mode != Sovereign
    ensures NeverBeforeStart(mode, chain, max, start, head) <==> start <= head + 1
  {
    if start <= head + 1 {
      forall steps, t | Leads(mode, chain, max, Start(start, head), steps, t) ensures start <= t.cursor {
        BlocksCoveredOnce(mode, chain, max, start, head, steps, t);
      }
    } else {
      var steps, t := StartAheadIsPulledBack(mode, chain, max, start, head);
    }
  }

  // ----- no settlement chain -----

  /** In sovereign mode nothing is ever gathered; the cursor only becomes one. */
  lemma {:induction false} SovereignGathersNothing(chain: Chain, max: nat, start: nat, head: nat, steps: seq<Step>,
                                                   t: State)
    requires Leads(Sovereign, chain, max, Start(start, head), steps, t)
    ensures t.pool == [] && !AwaitsEvents(t) && (t.cursor == start || t.cursor == 1)
    decreases |steps|
  {
    if steps != [] {
      var last := |steps| - 1;
      var u :| Leads(Sovereign, chain, max, Start(start, head), steps[..last], u) && Enabled(chain, max, u, steps[last])
               && t == After(Sovereign, chain, max, u, steps[last]);
      SovereignGathersNothing(chain, max, start, head, steps[..last], u);
    }
  }
}
