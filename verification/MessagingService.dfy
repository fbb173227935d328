/** The polling service over the cursor, and how a gather collects its events (crates/katana/messaging/src). */
module MessagingService {
  import opened Wrappers
  import opened Sequences
  import opened Selections
  import opened Messaging

  /** What an awaited request has come to. */
  datatype Reply<+T> = NotYet | Failed | Came(value: T)

  /** Polling a gather. */
  datatype GatherPoll = Waiting(flight: Flight) | Done(last: nat, messages: seq<Message>) | Error | Crash

  datatype Polled = Pending | Ready(latestBlock: nat, count: nat) | Panicked

  /** The provider answers a range of blocks with their events, if it answers. */
  ghost predicate Truthful(chain: Chain, fetch: (nat, nat) -> Reply<seq<Event>>) {
    forall from: nat, to: nat :: fetch(from, to).Came? ==>
      Numbered(fetch(from, to).value) == EventsIn(chain, from, to + 1)
  }

  // ----- collecting -----

  /** An event that has a block number is kept as it is. */
  function Settled(e: Event): (r: Option<Event>) {
    if e.block.Some? then Some(e) else None
  }

  /** Exactly the events with a block number, in order. */
  ghost predicate KeepsSettled(es: seq<Event>, kept: seq<Event>) {
    exists at :: Selects(Settled, es, kept, at)
  }

  /** What a settled event converts into, if anything. */
  function SettledMessage(chain: Chain): (f: Event -> Option<Message>) {
    (e: Event) => if e.block.Some? then chain.convert(e) else None
  }

  /** Exactly the events with a block number are kept, in order. */
  lemma {:induction false} NumberedSelects(es: seq<Event>) returns (at: seq<nat>)
    ensures Selects(Settled, es, Numbered(es), at)
  {
    at := [];
    if es != [] {
      at := NumberedSelects(es[1..]);
      at := SelectsCons(Settled, es[1..], Numbered(es[1..]), at, es[0]);
      assert [es[0]] + es[1..] == es;
    }
  }

  /** Exactly the events that convert give a transaction, in order. */
  lemma {:induction false} ConvertSelects(chain: Chain, es: seq<Event>) returns (at: seq<nat>)
    ensures Selects(chain.convert, es, ConvertAll(chain, es), at)
  {
    at := [];
    if es != [] {
      at := ConvertSelects(chain, es[1..]);
      at := SelectsCons(chain.convert, es[1..], ConvertAll(chain, es[1..]), at, es[0]);
      assert [es[0]] + es[1..] == es;
    }
  }

  /** Exactly the settled events that convert give a transaction, in order. */
  lemma {:induction false} SettledSelects(chain: Chain, es: seq<Event>) returns (at: seq<nat>)
    ensures Selects(SettledMessage(chain), es, ConvertAll(chain, Numbered(es)), at)
  {
    at := [];
    if es != [] {
      var rest := ConvertAll(chain, Numbered(es[1..]));
      at := SettledSelects(chain, es[1..]);
      at := SelectsCons(SettledMessage(chain), es[1..], rest, at, es[0]);
      assert [es[0]] + es[1..] == es;
      assert ([es[0]] + Numbered(es[1..]))[1..] == Numbered(es[1..]);
    }
  }

  lemma {:induction false} NumberedAppend(xs: seq<Event>, ys: seq<Event>)
    ensures Numbered(xs + ys) == Numbered(xs) + Numbered(ys)
  {
    if xs == [] {
      assert xs + ys == ys;
    } else {
      assert (xs + ys)[1..] == xs[1..] + ys;
      NumberedAppend(xs[1..], ys);
    }
  }

  method PushNumbered(events: seq<Event>, page: seq<Event>) returns (r: seq<Event>)
    ensures r == events + Numbered(page)
    ensures KeepsSettled(page, r[|events|..])
  {
    r := events;
    for i := 0 to |page|
      invariant r == events + Numbered(page[..i])
    {
      assert page[..i + 1] == page[..i] + [page[i]];
      NumberedAppend(page[..i], [page[i]]);
      if page[i].block.Some? {
        r := r + [page[i]];
      }
    }
    assert page[..|page|] == page && r[|events|..] == Numbered(page);
    ghost var at := NumberedSelects(page);
  }

  method CollectMessages(chain: Chain, events: seq<Event>) returns (r: seq<Message>)
    ensures r == ConvertAll(chain, events)
    ensures exists at :: Selects(chain.convert, events, r, at)
  {
    r := [];
    for i := 0 to |events|
      invariant r == ConvertAll(chain, events[..i])
    {
      assert events[..i + 1] == events[..i] + [events[i]];
      ConvertAppend(chain, events[..i], [events[i]]);
      var m := chain.convert(events[i]);
      if m.Some? {
        r := r + [m.value];
      }
    }
    assert events[..|events|] == events;
    ghost var at := ConvertSelects(chain, events);
  }

  /** A page of events, and the token that asks for the next. */
  datatype Page = Page(events: seq<Event>, token: Option<string>)

  /** All events of the pages, as long as each has a token for the next and none fails; the next may be outstanding. */
  function PagedEvents(pages: seq<Reply<Page>>): (r: Reply<seq<Event>>) {
    if pages == [] || pages[0].NotYet? then NotYet
    else if pages[0].Failed? then Failed
    else if pages[0].value.token.None? then Came(pages[0].value.events)
    else
      match PagedEvents(pages[1..])
      case Came(more) => Came(pages[0].value.events + more)
      case other => other
  }

  /** What `fetch_events` makes of them: the events that have a block number. */
  function Fetched(pages: seq<Reply<Page>>): (r: Reply<seq<Event>>) {
    match PagedEvents(pages)
    case Came(events) => Came(Numbered(events))
    case other => other
  }

  /** The pages so far, each of which asks for the next. */
  ghost predicate AskOn(pages: seq<Reply<Page>>) {
    forall p <- pages :: p.Came? && p.value.token.Some?
  }

  function EventsOf(pages: seq<Reply<Page>>): (r: seq<Event>) {
    if pages == [] then []
    else (if pages[0].Came? then pages[0].value.events else []) + EventsOf(pages[1..])
  }

  lemma {:induction false} EventsOfSnoc(pages: seq<Reply<Page>>, last: Reply<Page>)
    requires last.Came?
    ensures EventsOf(pages + [last]) == EventsOf(pages) + last.value.events
  {
    if pages == [] {
      assert pages + [last] == [last] && [last][1..] == [] && last.value.events + [] == [] + last.value.events;
    } else {
      assert (pages + [last])[1..] == pages[1..] + [last];
      EventsOfSnoc(pages[1..], last);
      var first := if pages[0].Came? then pages[0].value.events else [];
      Associate(first, EventsOf(pages[1..]), last.value.events);
    }
  }

  /** Pages that ask on go in front of whatever the next ones come to. */
  lemma {:induction false} PagedAfter(before: seq<Reply<Page>>, after: seq<Reply<Page>>)
    requires AskOn(before)
    ensures PagedEvents(before + after) ==
            match PagedEvents(after) case Came(events) => Came(EventsOf(before) + events) case other => other
  {
    if before == [] {
      assert before + after == after;
      if PagedEvents(after).Came? {
        assert [] + PagedEvents(after).value == PagedEvents(after).value;
      }
    } else {
      assert before[0].Came? && before[0].value.token.Some?;
      assert (before + after)[1..] == before[1..] + after;
      PagedAfter(before[1..], after);
      if PagedEvents(after).Came? {
        Associate(before[0].value.events, EventsOf(before[1..]), PagedEvents(after).value);
      }
    }
  }

  /**
   * The first page that does not ask for another decides: it is outstanding, has failed, or is the last, and then what
   * is fetched is the events of all pages up to it that have a block number.
   */
  lemma LastPageDecides(pages: seq<Reply<Page>>, n: nat)
    requires n <= |pages| && AskOn(pages[..n])
    ensures n == |pages| || pages[n].NotYet? ==> Fetched(pages) == NotYet
    ensures n < |pages| && pages[n].Failed? ==> Fetched(pages) == Failed
    ensures n < |pages| && pages[n].Came? && pages[n].value.token.None? ==>
              Fetched(pages).Came? && KeepsSettled(EventsOf(pages[..n + 1]), Fetched(pages).value)
  {
    PagedAfter(pages[..n], pages[n..]);
    assert pages[..n] + pages[n..] == pages;
    if n < |pages| && pages[n].Came? && pages[n].value.token.None? {
      EventsOfSnoc(pages[..n], pages[n]);
      assert pages[..n + 1] == pages[..n] + [pages[n]];
      var at := NumberedSelects(EventsOf(pages[..n + 1]));
    }
  }

  /**
   * `fetch_events`: the pages are asked for until one has no token. What is kept is in order; while every page so far
   * asks for another, the call is still waiting.
   */
  method FetchEvents(pages: seq<Reply<Page>>) returns (r: Reply<seq<Event>>)
    ensures r == Fetched(pages)
  {
    var events: seq<Event> := [];
    var i := 0;
    while i < |pages|
      invariant 0 <= i <= |pages| && AskOn(pages[..i]) && events == Numbered(EventsOf(pages[..i]))
    {
      PagedAfter(pages[..i], pages[i..]);
      assert pages[..i] + pages[i..] == pages;
      if pages[i].NotYet? {
        return NotYet;
      }
      if pages[i].Failed? {
        return Failed;
      }
      var page := pages[i].value;
      NumberedAppend(EventsOf(pages[..i]), page.events);
      events := PushNumbered(events, page.events);
      if page.token.None? {
        return Came(events);
      }
      EventsOfSnoc(pages[..i], pages[i]);
      assert pages[..i + 1] == pages[..i] + [pages[i]];
      i := i + 1;
    }
    PagedAfter(pages, []);
    assert pages[..i] == pages && pages + [] == pages;
    return NotYet;
  }

  /** A fetch made of pages, whichever the provider gives for a range. */
  function FetchOf(pages: (nat, nat) -> seq<Reply<Page>>): (fetch: (nat, nat) -> Reply<seq<Event>>) {
    (from: nat, to: nat) => Fetched(pages(from, to))
  }

  lemma {:induction false} NumberedTwice(es: seq<Event>)
    ensures Numbered(Numbered(es)) == Numbered(es)
  {
    if es != [] {
      NumberedTwice(es[1..]);
      if es[0].block.Some? {
        assert ([es[0]] + Numbered(es[1..]))[1..] == Numbered(es[1..]);
      }
    }
  }

  /** If complete page sequences hold the events of their range, the service can rely on the fetch made of them. */
  lemma PagesMakeTruthful(chain: Chain, pages: (nat, nat) -> seq<Reply<Page>>)
    requires forall from: nat, to: nat :: PagedEvents(pages(from, to)).Came? ==>
               Numbered(PagedEvents(pages(from, to)).value) == EventsIn(chain, from, to + 1)
    ensures Truthful(chain, FetchOf(pages))
  {
    var fetch := FetchOf(pages);
    forall from: nat, to: nat | fetch(from, to).Came?
      ensures Numbered(fetch(from, to).value) == EventsIn(chain, from, to + 1)
    {
      NumberedTwice(PagedEvents(pages(from, to)).value);
    }
  }

  // ----- the service -----

  lemma TickIsARun(mode: Mode, chain: Chain, s: State, tick: bool) returns (steps: seq<Step>)
    requires !s.crashed
    ensures Leads(mode, chain, MAX_BLOCKS, s, steps, if tick then After(mode, chain, MAX_BLOCKS, s, Tick) else s)
  {
    steps := [];
    if tick {
      LeadsFurther(mode, chain, MAX_BLOCKS, s, [], s, Tick);
      steps := [] + [Tick];
    }
  }

  class Service {
    const mode: Mode
    const chain: Chain
    var gatherFromBlock: nat
    var flight: Option<Flight>
    var pool: seq<Message>
    var crashed: bool
    ghost var ranges: seq<(nat, nat)>

    /** Without a settlement chain a gather does not get as far as a height. */
    ghost predicate Valid()
      reads this
    {
      mode == Sovereign && flight.Some? ==> flight.value.latest.None?
    }

    /** The service as a state of the machine, with the settlement chain at `head`. */
    ghost function View(head: nat): (s: State)
      reads this
    {
      State(gatherFromBlock, flight, head, pool, ranges, crashed)
    }

    constructor (mode: Mode, chain: Chain, fromBlock: nat)
      ensures Valid() && this.mode == mode && this.chain == chain
      ensures forall head: nat :: View(head) == Start(fromBlock, head)
    {
      this.mode, this.chain := mode, chain;
      gatherFromBlock, flight, pool, crashed, ranges := fromBlock, None, [], false, [];
    }

    /** Polls the gather: it waits for the height, then for the events. */
    method PollGather(f: Flight, height: Reply<nat>, fetch: (nat, nat) -> Reply<seq<Event>>) returns (r: GatherPoll)
      ensures r == GatherAnswer(mode, chain, f, height, fetch)
    {
      if mode == Sovereign {
        return Done(0, []);
      }
      var latest: nat;
      if f.latest.Some? {
        latest := f.latest.value;
      } else {
        if height.NotYet? {
          return Waiting(f);
        }
        if height.Failed? {
          return Error;
        }
        latest := height.value;
        if mode == Starknet && f.from > latest {
          return Done(latest, []);
        }
      }
      var to := ToBlock(f.from, MAX_BLOCKS, latest);
      var reply := fetch(f.from, to);
      if reply.NotYet? {
        return Waiting(Flight(f.from, Some(latest)));
      }
      if reply.Failed? {
        return if mode == Starknet then Crash else Error;
      }
      var events := PushNumbered([], reply.value);
      var messages := CollectMessages(chain, events);
      assert [] + Numbered(reply.value) == Numbered(reply.value);
      return Done(to, messages);
    }

    /** One poll comes to what it should, and is a run of the machine. */
    method PollNext(tick: bool, height: Reply<nat>, fetch: (nat, nat) -> Reply<seq<Event>>, ghost head: nat)
      returns (r: Polled, ghost steps: seq<Step>)
      requires Valid() && !crashed && Truthful(chain, fetch) && (height.Came? ==> height.value == head)
      modifies this
      ensures Valid()
      ensures PollComesTo(mode, chain, tick, height, fetch, old(View(head)), r, View(head))
      ensures Leads(mode, chain, MAX_BLOCKS, old(View(head)), steps, View(head))
      ensures |ranges| == |old(ranges)| + (if r.Ready? then 1 else 0)
      ensures r.Ready? ==>
                && gatherFromBlock == r.latestBlock + 1 && flight.None?
                && |pool| == |old(pool)| + r.count && pool[..|old(pool)|] == old(pool)
      ensures !r.Ready? ==> gatherFromBlock == old(gatherFromBlock) && pool == old(pool)
      ensures r.Panicked? <==> crashed
    {
      ghost var before := View(head);
      if tick && flight.None? {
        flight := Some(Flight(gatherFromBlock, None));
      }
      steps := TickIsARun(mode, chain, before, tick);
      r := Pending;
      if flight.Some? {
        var answer := PollGather(flight.value, height, fetch);
        steps := AnswerIsARun(mode, chain, before, steps, View(head), height, fetch);
        AnswerIsMeant(mode, chain, tick, height, fetch, before);
        r := TakeAnswer(answer);
      }
    }

    /** The gather is taken out, and put back only while it waits. */
    method TakeAnswer(answer: GatherPoll) returns (r: Polled)
      requires flight.Some? && !crashed
      modifies this
      ensures forall head: nat :: View(head) == Apply(old(View(head)), old(flight.value), answer)
      ensures r == Answered(answer)
    {
      var f := flight.value;
      flight := None;
      match answer
      case Waiting(g) =>
        flight := Some(g);
        r := Pending;
      case Done(last, messages) =>
        gatherFromBlock := last + 1;
        pool := pool + messages;
        ranges := ranges + [(f.from, last)];
        r := Ready(last, |messages|);
      case Error => r := Pending;
      case Crash =>
        crashed := true;
        r := Panicked;
    }
  }

  /** What polling a gather comes to. */
  function GatherAnswer(mode: Mode, chain: Chain, f: Flight, height: Reply<nat>,
                        fetch: (nat, nat) -> Reply<seq<Event>>): (r: GatherPoll) {
    if mode == Sovereign then Done(0, [])
    else if f.latest.None? && height.NotYet? then Waiting(f)
    else if f.latest.None? && height.Failed? then Error
    else
      var latest := if f.latest.Some? then f.latest.value else height.value;
      if f.latest.None? && mode == Starknet && f.from > latest then Done(latest, [])
      else
        FetchAnswer(mode, chain, f.from, latest, fetch(f.from, ToBlock(f.from, MAX_BLOCKS, latest)))
  }

  /** What the service tells its caller. */
  function Answered(answer: GatherPoll): (r: Polled) {
    match answer
    case Waiting(_) => Pending
    case Done(last, messages) => Ready(last, |messages|)
    case Error => Pending
    case Crash => Panicked
  }

  /**
   * What a poll is for. Without a gather, old or new, nothing happens. A gather that misses a reply goes on, with the
   * head it was told; a failed reply ends it, and in Starknet mode a failed fetch panics. A gather from behind the head
   * asks for at most 201 blocks, or 202 if they reach the head; once all has come, its messages are in the pool and the
   * cursor is right behind the last block asked for.
   */
  ghost predicate PollComesTo(mode: Mode, chain: Chain, tick: bool, height: Reply<nat>,
                              fetch: (nat, nat) -> Reply<seq<Event>>, s: State, r: Polled, t: State)
  {
    if s.flight.None? && !tick then r == Pending && t == s
    else
      var f := if s.flight.Some? then s.flight.value else Flight(s.cursor, None);
      GatherComesTo(mode, chain, f, height, fetch, s, r, t)
  }

  ghost predicate GatherComesTo(mode: Mode, chain: Chain, f: Flight, height: Reply<nat>,
                                fetch: (nat, nat) -> Reply<seq<Event>>, s: State, r: Polled, t: State)
  {
    if mode == Sovereign then
      Gathered(s, f, 0, [], r, t)
    else if f.latest.None? && height.NotYet? then
      r == Pending && t == s.(flight := Some(f))
    else if f.latest.None? && height.Failed? then
      r == Pending && t == s.(flight := None)
    else
      var head := if f.latest.Some? then f.latest.value else height.value;
      if f.latest.None? && mode == Starknet && f.from > head then
        Gathered(s, f, head, [], r, t)
      else
        var last := if head <= f.from + 201 then head else f.from + 200;
        match fetch(f.from, last)
        case NotYet => r == Pending && t == s.(flight := Some(Flight(f.from, Some(head))))
        case Failed =>
          if mode == Starknet then r == Panicked && t == s.(flight := None, crashed := true)
          else r == Pending && t == s.(flight := None)
        case Came(events) =>
          exists messages, at ::
            Selects(SettledMessage(chain), events, messages, at) && Gathered(s, f, last, messages, r, t)
  }

  /** The blocks from `f.from` to `last` are done with. */
  ghost predicate Gathered(s: State, f: Flight, last: nat, messages: seq<Message>, r: Polled, t: State) {
    && r == Ready(last, |messages|)
    && t == s.(cursor := last + 1, flight := None, pool := s.pool + messages, ranges := s.ranges + [(f.from, last)])
  }

  /** The state once a tick, if there is one, has started a gather. */
  function Ticked(s: State, tick: bool): (r: State) {
    if tick && s.flight.None? then s.(flight := Some(Flight(s.cursor, None))) else s
  }

  lemma AnswerIsMeant(mode: Mode, chain: Chain, tick: bool, height: Reply<nat>,
                      fetch: (nat, nat) -> Reply<seq<Event>>, s: State)
    requires Ticked(s, tick).flight.Some?
    ensures var u := Ticked(s, tick);
            var answer := GatherAnswer(mode, chain, u.flight.value, height, fetch);
            PollComesTo(mode, chain, tick, height, fetch, s, Answered(answer), Apply(u, u.flight.value, answer))
  {
    var f := Ticked(s, tick).flight.value;
    var head := if f.latest.Some? then f.latest.value else if height.Came? then height.value else 0;
    var last := if head <= f.from + 201 then head else f.from + 200;
    if fetch(f.from, last).Came? {
      var at := SettledSelects(chain, fetch(f.from, last).value);
    }
  }

  /** What the service makes of it. */
  function Apply(s: State, f: Flight, answer: GatherPoll): (r: State)
    requires s.flight == Some(f)
  {
    match answer
    case Waiting(g) => s.(flight := Some(g))
    case Done(last, messages) => Succeed(s, last, messages)
    case Error => s.(flight := None)
    case Crash => s.(flight := None, crashed := true)
  }

  lemma AnswerIsARun(mode: Mode, chain: Chain, s: State, steps: seq<Step>, u: State, height: Reply<nat>,
                     fetch: (nat, nat) -> Reply<seq<Event>>)
    returns (more: seq<Step>)
    requires Leads(mode, chain, MAX_BLOCKS, s, steps, u) && u.flight.Some? && !u.crashed
    requires Truthful(chain, fetch) && (height.Came? ==> height.value == u.head)
    requires mode == Sovereign ==> u.flight.value.latest.None?
    ensures var f := u.flight.value;
            Leads(mode, chain, MAX_BLOCKS, s, more, Apply(u, f, GatherAnswer(mode, chain, f, height, fetch)))
  {
    var f := u.flight.value;
    if f.latest.Some? {
      more := FetchIsARun(mode, chain, s, steps, u, fetch);
    } else if mode != Sovereign && height.NotYet? {
      more := steps;
    } else {
      var step := if mode != Sovereign && height.Failed? then HeightFails else HeightComes;
      var v := After(mode, chain, MAX_BLOCKS, u, step);
      LeadsFurther(mode, chain, MAX_BLOCKS, s, steps, u, step);
      more := steps + [step];
      if v.flight.Some? {
        more := FetchIsARun(mode, chain, s, more, v, fetch);
      }
    }
  }

  /** The second half of a gather, whose height is known. */
  function FetchAnswer(mode: Mode, chain: Chain, from: nat, latest: nat, reply: Reply<seq<Event>>): (r: GatherPoll) {
    match reply
    case NotYet => Waiting(Flight(from, Some(latest)))
    case Failed => if mode == Starknet then Crash else Error
    case Came(events) => Done(ToBlock(from, MAX_BLOCKS, latest), ConvertAll(chain, Numbered(events)))
  }

  lemma FetchIsARun(mode: Mode, chain: Chain, s: State, steps: seq<Step>, u: State,
                    fetch: (nat, nat) -> Reply<seq<Event>>)
    returns (more: seq<Step>)
    requires Leads(mode, chain, MAX_BLOCKS, s, steps, u) && AwaitsEvents(u) && !u.crashed
    requires Truthful(chain, fetch)
    ensures var f := u.flight.value;
            var reply := fetch(f.from, ToBlock(f.from, MAX_BLOCKS, f.latest.value));
            var answer := FetchAnswer(mode, chain, f.from, f.latest.value, reply);
            Leads(mode, chain, MAX_BLOCKS, s, more, Apply(u, f, answer))
  {
    var f := u.flight.value;
    var reply := fetch(f.from, ToBlock(f.from, MAX_BLOCKS, f.latest.value));
    more := steps;
    if !reply.NotYet? {
      var step := if reply.Failed? then FetchFails else FetchComes(reply.value);
      LeadsFurther(mode, chain, MAX_BLOCKS, s, steps, u, step);
      more := steps + [step];
    }
  }
}
