/** `fetch_messages_range`: validation of the two links, the backward walk over a
    chat's history, the restart after a FloodWait, and the final sort by id. */
module RangeFetch {
  import opened Common
  import opened Links
  import opened MessageOrder

  /** The client's answer to one `get_chat_history` request: a page of messages,
      a FloodWait of some seconds, or any other exception. */
  datatype PageReply = Page(messages: seq<Message>) | Throttled(seconds: nat) | Broken

  /** `get_chat_history(chat_id, limit=100, offset_id)` as seen by the fetch: the answer
      given during attempt `attempt` of the fetch for chat `chat` at offset `offset`.
      The attempt number lets a history change between a FloodWait and the restart. */
  type History = (nat, string, nat) -> PageReply

  const PageLimit: nat := 100

  predicate AllBelow(ms: seq<Message>, bound: nat) {
    forall i :: 0 <= i < |ms| ==> ms[i].id < bound
  }

  /** What the client promises about a page: at most 100 messages, newest first, all
      strictly older than the offset. */
  predicate ValidReply(r: PageReply, offset: nat) {
    r.Page? ==> |r.messages| <= PageLimit && StrictlyDescending(r.messages) && AllBelow(r.messages, offset)
  }

  /** Names the request at these arguments. The client's promise below is stated
      for requests so named, so that the verifier uses it only where a proof
      names a request (through `ReplyValid`). */
  predicate Requested(attempt: nat, chat: string, offset: nat) {
    true
  }

  /** The client keeps its promise on every request. */
  ghost predicate ValidHistory(h: History) {
    forall attempt, chat, offset {:trigger Requested(attempt, chat, offset)} ::
      Requested(attempt, chat, offset) ==> ValidReply(h(attempt, chat, offset), offset)
  }

  lemma ReplyValid(h: History, attempt: nat, chat: string, offset: nat)
    requires ValidHistory(h)
    ensures ValidReply(h(attempt, chat, offset), offset)
  {
    assert Requested(attempt, chat, offset);
  }

  predicate InWindow(m: Message, lo: nat, hi: nat) {
    lo <= m.id <= hi
  }

  /** The inner `for msg in messages` loop: keep the messages inside the window, skip
      those above it, stop at the first one below it. */
  function ScanPage(page: seq<Message>, lo: nat, hi: nat): seq<Message> {
    if page == [] then []
    else if InWindow(page[0], lo, hi) then [page[0]] + ScanPage(page[1..], lo, hi)
    else if page[0].id < lo then []
    else ScanPage(page[1..], lo, hi)
  }

  /** What the scan keeps: only messages inside the window, each taken from the page at
      most once. */
  lemma {:induction false} ScanPageKeeps(page: seq<Message>, lo: nat, hi: nat)
    ensures forall i :: 0 <= i < |ScanPage(page, lo, hi)| ==> InWindow(ScanPage(page, lo, hi)[i], lo, hi)
    ensures multiset(ScanPage(page, lo, hi)) <= multiset(page)
  {
    if page != [] {
      ScanPageKeeps(page[1..], lo, hi);
      assert page == [page[0]] + page[1..];
    }
  }

  /** The scan keeps the page's newest-first order. */
  lemma {:induction false} ScanPageOrder(page: seq<Message>, lo: nat, hi: nat)
    requires StrictlyDescending(page)
    ensures StrictlyDescending(ScanPage(page, lo, hi))
  {
    if page != [] {
      var rest := ScanPage(page[1..], lo, hi);
      ScanPageOrder(page[1..], lo, hi);
      if InWindow(page[0], lo, hi) {
        ScanPageKeeps(page[1..], lo, hi);
        forall i | 0 <= i < |rest|
          ensures rest[i].id < page[0].id
        {
          assert rest[i] in multiset(page[1..]);
          var k :| 0 <= k < |page[1..]| && page[1..][k] == rest[i];
          assert page[k + 1] == rest[i];
        }
        ConsDescending(page[0], rest);
      }
    }
  }

  /** The window filter stated without the early stop. */
  function Window(ms: seq<Message>, lo: nat, hi: nat): seq<Message> {
    if ms == [] then []
    else (if InWindow(ms[0], lo, hi) then [ms[0]] else []) + Window(ms[1..], lo, hi)
  }

  lemma {:induction false} WindowOfOlder(ms: seq<Message>, lo: nat, hi: nat)
    requires AllBelow(ms, lo)
    ensures Window(ms, lo, hi) == []
  {
    if ms != [] {
      WindowOfOlder(ms[1..], lo, hi);
    }
  }

  /** On a newest-first page, stopping at the first message below the window loses
      nothing: the scan keeps exactly the page's messages inside the window. */
  lemma {:induction false} ScanPageIsWindow(page: seq<Message>, lo: nat, hi: nat)
    requires StrictlyDescending(page)
    ensures ScanPage(page, lo, hi) == Window(page, lo, hi)
  {
    if page != [] {
      if !InWindow(page[0], lo, hi) && page[0].id < lo {
        WindowOfOlder(page[1..], lo, hi);
      } else {
        ScanPageIsWindow(page[1..], lo, hi);
      }
    }
  }

  /** `any(msg.id <= min_id for msg in messages)`. */
  predicate ReachesLow(page: seq<Message>, lo: nat) {
    exists i :: 0 <= i < |page| && page[i].id <= lo
  }

  /** How one walk over the history ends: with the messages it collected, at a
      FloodWait, or at another exception. */
  datatype Walk = Collected(messages: seq<Message>) | WalkThrottled(seconds: nat) | WalkBroken

  /** Observable steps of a fetch: a history request, and a pause of some seconds. */
  datatype FetchEvent = Request(attempt: nat, offset: nat) | Pause(seconds: nat)

  datatype WalkOutcome = WalkOutcome(walk: Walk, events: seq<FetchEvent>)

  /** The `while True` walk from `offset` down, one request per page, with a one-second
      pause before each further request. */
  function Paginate(h: History, attempt: nat, chat: string, lo: nat, hi: nat, offset: nat): WalkOutcome
    requires ValidHistory(h)
    decreases offset
  {
    var reply := h(attempt, chat, offset);
    ReplyValid(h, attempt, chat, offset);
    match reply
    case Throttled(x) => WalkOutcome(WalkThrottled(x), [Request(attempt, offset)])
    case Broken => WalkOutcome(WalkBroken, [Request(attempt, offset)])
    case Page(ms) =>
      if ms == [] then WalkOutcome(Collected([]), [Request(attempt, offset)])
      else
        var kept := ScanPage(ms, lo, hi);
        if ReachesLow(ms, lo) then WalkOutcome(Collected(kept), [Request(attempt, offset)])
        else
          var rest := Paginate(h, attempt, chat, lo, hi, ms[|ms| - 1].id);
          Then(kept, [Request(attempt, offset), Pause(1)], rest)
  }

  /** One turn of the loop: a non-empty page that does not reach `min_id` is
      scanned, and the walk goes on from the page's oldest id, which is below the
      offset. */
  lemma PaginateStep(h: History, attempt: nat, chat: string, lo: nat, hi: nat, offset: nat)
    requires ValidHistory(h)
    requires var reply := h(attempt, chat, offset);
      reply.Page? && reply.messages != [] && !ReachesLow(reply.messages, lo)
    ensures var ms := h(attempt, chat, offset).messages;
      var next := ms[|ms| - 1].id;
      next < offset &&
      Paginate(h, attempt, chat, lo, hi, offset) ==
        Then(ScanPage(ms, lo, hi), [Request(attempt, offset), Pause(1)], Paginate(h, attempt, chat, lo, hi, next))
  {
    ReplyValid(h, attempt, chat, offset);
  }

  /** A walk that has already collected `kept` and produced `events` before continuing
      as `rest`: messages collected so far are lost unless the rest completes. */
  function Then(kept: seq<Message>, events: seq<FetchEvent>, rest: WalkOutcome): WalkOutcome {
    WalkOutcome(
      if rest.walk.Collected? then Collected(kept + rest.walk.messages) else rest.walk,
      events + rest.events)
  }

  /** The links' chat and the inclusive id window `[min_id, max_id]`. */
  datatype Range = Range(chat: string, lo: nat, hi: nat)

  datatype FetchError = InvalidLinks | DifferentChats

  datatype Checked = Valid(range: Range) | Invalid(error: FetchError)

  /** The two `ValueError` checks: both links parse with a non-zero message id, and
      both name the same chat; the window runs from the smaller id to the larger. */
  function CheckLinks(startLink: string, endLink: string): (c: Checked)
    ensures c.Valid? ==> 0 < c.range.lo <= c.range.hi
  {
    var s := ParseLink(startLink);
    var e := ParseLink(endLink);
    if s.None? || e.None? || s.value.messageId == 0 || e.value.messageId == 0 then Invalid(InvalidLinks)
    else if s.value.chat != e.value.chat then Invalid(DifferentChats)
    else
      var a := s.value.messageId;
      var b := e.value.messageId;
      Valid(Range(s.value.chat, if a <= b then a else b, if a <= b then b else a))
  }

  /** The result of `fetch_messages_range`: the messages, or the `ValueError` raised,
      or, in the model only, a give-up once the attempt budget is spent. */
  datatype FetchResult = Fetched(messages: seq<Message>) | Rejected(error: FetchError) | OutOfAttempts

  datatype FetchOutcome = FetchOutcome(result: FetchResult, events: seq<FetchEvent>)

  /** Attempts `attempt`, `attempt + 1`, ... of the walk, each starting from offset
      `first`, restarting after a FloodWait of `x` seconds with a pause of `x + 5`;
      `fuel` bounds the number of attempts. */
  function Attempts(h: History, r: Range, first: nat, attempt: nat, fuel: nat): FetchOutcome
    requires ValidHistory(h)
    decreases fuel
  {
    if fuel == 0 then FetchOutcome(OutOfAttempts, [])
    else
      var w := Paginate(h, attempt, r.chat, r.lo, r.hi, first);
      match w.walk
      case Collected(ms) => FetchOutcome(Fetched(SortById(ms)), w.events)
      case WalkBroken => FetchOutcome(Fetched([]), w.events)
      case WalkThrottled(x) =>
        var next := Attempts(h, r, first, attempt + 1, fuel - 1);
        FetchOutcome(next.result, w.events + [Pause(x + 5)] + next.events)
  }

  /** `fetch_messages_range` as written: validation, then the attempts, each walking
      from `current_offset_id = max_id`. */
  function FetchSpec(startLink: string, endLink: string, h: History, fuel: nat): FetchOutcome
    requires ValidHistory(h)
  {
    match CheckLinks(startLink, endLink)
    case Invalid(e) => FetchOutcome(Rejected(e), [])
    case Valid(r) => Attempts(h, r, r.hi, 0, fuel)
  }

  /** The fetch with the walk starting from `max_id + 1`, so that the first page can
      hold the message at `max_id` (see `StableHistory.UpperEndMissed`). */
  function CorrectedFetchSpec(startLink: string, endLink: string, h: History, fuel: nat): FetchOutcome
    requires ValidHistory(h)
  {
    match CheckLinks(startLink, endLink)
    case Invalid(e) => FetchOutcome(Rejected(e), [])
    case Valid(r) => Attempts(h, r, r.hi + 1, 0, fuel)
  }

  /** The inner loop over one page. */
  method ScanPageLoop(page: seq<Message>, lo: nat, hi: nat) returns (kept: seq<Message>)
    ensures kept == ScanPage(page, lo, hi)
  {
    kept := [];
    var i := 0;
    while i < |page|
      invariant 0 <= i <= |page|
      invariant kept + ScanPage(page[i..], lo, hi) == ScanPage(page, lo, hi)
    {
      var msg := page[i];
      assert page[i..] == [msg] + page[i + 1..];
      if lo <= msg.id <= hi {
        assert ScanPage(page[i..], lo, hi) == [msg] + ScanPage(page[i + 1..], lo, hi);
        kept := kept + [msg];
      } else if msg.id < lo {
        assert ScanPage(page[i..], lo, hi) == [];
        break;
      } else {
        assert ScanPage(page[i..], lo, hi) == ScanPage(page[i + 1..], lo, hi);
      }
      i := i + 1;
    }
  }

  /** Continuing a walk that has already continued is one continuation. */
  lemma ThenThen(all: seq<Message>, events: seq<FetchEvent>, kept: seq<Message>, step: seq<FetchEvent>, rest: WalkOutcome)
    ensures Then(all, events, Then(kept, step, rest)) == Then(all + kept, events + step, rest)
  {
    assert events + (step + rest.events) == events + step + rest.events;
    if rest.walk.Collected? {
      assert all + (kept + rest.walk.messages) == all + kept + rest.walk.messages;
    }
  }

  /** One attempt: the `while True` loop, from `current_offset_id = max_id`. */
  method WalkHistory(h: History, attempt: nat, r: Range) returns (walk: Walk, events: seq<FetchEvent>)
    requires ValidHistory(h)
    ensures WalkOutcome(walk, events) == Paginate(h, attempt, r.chat, r.lo, r.hi, r.hi)
  {
    ghost var whole := Paginate(h, attempt, r.chat, r.lo, r.hi, r.hi);
    var all: seq<Message> := [];
    var offset := r.hi;
    events := [];
    assert whole == Then(all, events, whole);
    while true
      invariant whole == Then(all, events, Paginate(h, attempt, r.chat, r.lo, r.hi, offset))
      decreases offset
    {
      ghost var step := Paginate(h, attempt, r.chat, r.lo, r.hi, offset);
      var reply := h(attempt, r.chat, offset);
      match reply {
        case Throttled(x) =>
          assert step == WalkOutcome(WalkThrottled(x), [Request(attempt, offset)]);
          return WalkThrottled(x), events + [Request(attempt, offset)];
        case Broken =>
          assert step == WalkOutcome(WalkBroken, [Request(attempt, offset)]);
          return WalkBroken, events + [Request(attempt, offset)];
        case Page(ms) =>
          if ms == [] {
            assert step == WalkOutcome(Collected([]), [Request(attempt, offset)]);
            assert all + [] == all;
            return Collected(all), events + [Request(attempt, offset)];
          }
          var kept := ScanPageLoop(ms, r.lo, r.hi);
          if ReachesLow(ms, r.lo) {
            assert step == WalkOutcome(Collected(kept), [Request(attempt, offset)]);
            return Collected(all + kept), events + [Request(attempt, offset)];
          }
          var next := ms[|ms| - 1].id;
          PaginateStep(h, attempt, r.chat, r.lo, r.hi, offset);
          ThenThen(all, events, kept, [Request(attempt, offset), Pause(1)], Paginate(h, attempt, r.chat, r.lo, r.hi, next));
          all := all + kept;
          events := events + [Request(attempt, offset), Pause(1)];
          offset := next;
      }
    }
  }

  method FetchMessagesRange(startLink: string, endLink: string, h: History, fuel: nat)
    returns (result: FetchResult, events: seq<FetchEvent>)
    requires ValidHistory(h)
    ensures FetchOutcome(result, events) == FetchSpec(startLink, endLink, h, fuel)
  {
    var checked := CheckLinks(startLink, endLink);
    if checked.Invalid? {
      return Rejected(checked.error), [];
    }
    assert FetchSpec(startLink, endLink, h, fuel) == Attempts(h, checked.range, checked.range.hi, 0, fuel);
    result, events := Restarting(h, checked.range, fuel);
  }

  /** One attempt, as `Attempts` takes it: the walk from `first`, then the result or,
      after a FloodWait, the pause and the next attempt from `first` again. */
  lemma AttemptOnce(h: History, r: Range, first: nat, attempt: nat, fuel: nat, walk: Walk, events: seq<FetchEvent>)
    requires ValidHistory(h) && fuel > 0
    requires WalkOutcome(walk, events) == Paginate(h, attempt, r.chat, r.lo, r.hi, first)
    ensures var out := Attempts(h, r, first, attempt, fuel);
      (walk.Collected? ==> out == FetchOutcome(Fetched(SortById(walk.messages)), events)) &&
      (walk.WalkBroken? ==> out == FetchOutcome(Fetched([]), events)) &&
      (walk.WalkThrottled? ==> out == After(events + [Pause(walk.seconds + 5)], Attempts(h, r, first, attempt + 1, fuel - 1)))
  {
  }

  /** An outcome preceded by `events`. */
  function After(events: seq<FetchEvent>, out: FetchOutcome): FetchOutcome {
    FetchOutcome(out.result, events + out.events)
  }

  lemma AfterAfter(a: seq<FetchEvent>, b: seq<FetchEvent>, out: FetchOutcome)
    ensures After(a, After(b, out)) == After(a + b, out)
  {
    assert a + (b + out.events) == (a + b) + out.events;
  }

  /** One turn of the restart loop, with the events already recorded in front. */
  lemma RestartStep(h: History, r: Range, first: nat, attempt: nat, left: nat, before: seq<FetchEvent>, walk: Walk, events: seq<FetchEvent>)
    requires ValidHistory(h) && left > 0
    requires WalkOutcome(walk, events) == Paginate(h, attempt, r.chat, r.lo, r.hi, first)
    ensures var out := After(before, Attempts(h, r, first, attempt, left));
      (walk.Collected? ==> out == FetchOutcome(Fetched(SortById(walk.messages)), before + events)) &&
      (walk.WalkBroken? ==> out == FetchOutcome(Fetched([]), before + events)) &&
      (walk.WalkThrottled? ==>
        out == After(before + (events + [Pause(walk.seconds + 5)]), Attempts(h, r, first, attempt + 1, left - 1)))
  {
    AttemptOnce(h, r, first, attempt, left, walk, events);
    if walk.WalkThrottled? {
      AfterAfter(before, events + [Pause(walk.seconds + 5)], Attempts(h, r, first, attempt + 1, left - 1));
    }
  }

  /** Nothing recorded in front leaves an outcome as it is. */
  lemma AfterNothing(out: FetchOutcome)
    ensures After([], out) == out
  {
    assert [] + out.events == out.events;
  }

  /** With no attempt left the fetch gives up, after the events already recorded. */
  lemma RestartsSpent(h: History, r: Range, first: nat, attempt: nat, before: seq<FetchEvent>)
    requires ValidHistory(h)
    ensures After(before, Attempts(h, r, first, attempt, 0)) == FetchOutcome(OutOfAttempts, before)
  {
    assert before + [] == before;
  }

  /** The restart on FloodWait: each attempt walks the history from `max_id`; a
      FloodWait of `x` seconds pauses `x + 5` seconds and starts over. */
  method Restarting(h: History, range: Range, fuel: nat) returns (result: FetchResult, events: seq<FetchEvent>)
    requires ValidHistory(h)
    ensures FetchOutcome(result, events) == Attempts(h, range, range.hi, 0, fuel)
  {
    ghost var whole := Attempts(h, range, range.hi, 0, fuel);
    events := [];
    var attempt, left := 0, fuel;
    AfterNothing(whole);
    while left > 0
      invariant whole == After(events, Attempts(h, range, range.hi, attempt, left))
    {
      var walk, walkEvents := WalkHistory(h, attempt, range);
      RestartStep(h, range, range.hi, attempt, left, events, walk, walkEvents);
      match walk {
        case Collected(ms) =>
          return Fetched(SortById(ms)), events + walkEvents;
        case WalkBroken =>
          return Fetched([]), events + walkEvents;
        case WalkThrottled(x) =>
          events := events + (walkEvents + [Pause(x + 5)]);
          attempt, left := attempt + 1, left - 1;
      }
    }
    RestartsSpent(h, range, range.hi, attempt, events);
    return OutOfAttempts, events;
  }

  /** What a completed walk collects: messages inside the window, newest first, all
      strictly older than the offset the walk started from. */
  lemma {:induction false} WalkCollects(h: History, attempt: nat, chat: string, lo: nat, hi: nat, offset: nat)
    requires ValidHistory(h)
    ensures var w := Paginate(h, attempt, chat, lo, hi, offset).walk;
      w.Collected? ==> Gathered(w.messages, lo, hi, offset)
    decreases offset
  {
    var reply := h(attempt, chat, offset);
    ReplyValid(h, attempt, chat, offset);
    if reply.Page? && reply.messages != [] {
      var ms := reply.messages;
      KeptFromPage(ms, lo, hi, offset);
      if !ReachesLow(ms, lo) {
        var next := ms[|ms| - 1].id;
        PaginateStep(h, attempt, chat, lo, hi, offset);
        WalkCollects(h, attempt, chat, lo, hi, next);
        var rest := Paginate(h, attempt, chat, lo, hi, next);
        if rest.walk.Collected? {
          GatheredConcat(ScanPage(ms, lo, hi), rest.walk.messages, lo, hi, offset, next);
        }
      }
    }
  }

  /** What a walk gathers: messages inside the window, newest first, all strictly
      older than `offset`. */
  predicate Gathered(ms: seq<Message>, lo: nat, hi: nat, offset: nat) {
    StrictlyDescending(ms) && AllBelow(ms, offset) &&
    forall i :: 0 <= i < |ms| ==> InWindow(ms[i], lo, hi)
  }

  lemma GatheredConcat(kept: seq<Message>, rest: seq<Message>, lo: nat, hi: nat, offset: nat, next: nat)
    requires Gathered(kept, lo, hi, offset) && Gathered(rest, lo, hi, next) && next < offset
    requires forall i :: 0 <= i < |kept| ==> next <= kept[i].id
    ensures Gathered(kept + rest, lo, hi, offset)
  {
    ConcatDescending(kept, rest);
    forall i | 0 <= i < |kept + rest|
      ensures (kept + rest)[i].id < offset && InWindow((kept + rest)[i], lo, hi)
    {
      if i >= |kept| {
        assert (kept + rest)[i] == rest[i - |kept|];
      }
    }
  }

  /** The messages kept from one valid page lie between the page's oldest id and the offset. */
  lemma KeptFromPage(ms: seq<Message>, lo: nat, hi: nat, offset: nat)
    requires ms != [] && ValidReply(Page(ms), offset)
    ensures var kept := ScanPage(ms, lo, hi);
      Gathered(kept, lo, hi, offset) &&
      forall i :: 0 <= i < |kept| ==> ms[|ms| - 1].id <= kept[i].id
  {
    var kept := ScanPage(ms, lo, hi);
    ScanPageKeeps(ms, lo, hi);
    ScanPageOrder(ms, lo, hi);
    forall i | 0 <= i < |kept|
      ensures ms[|ms| - 1].id <= kept[i].id < offset
    {
      assert kept[i] in multiset(ms);
    }
  }

  /** The offsets of the history requests, in the order they were made. */
  function Offsets(events: seq<FetchEvent>): seq<nat> {
    if events == [] then []
    else (if events[0].Request? then [events[0].offset] else []) + Offsets(events[1..])
  }

  lemma {:induction false} OffsetsConcat(a: seq<FetchEvent>, b: seq<FetchEvent>)
    ensures Offsets(a + b) == Offsets(a) + Offsets(b)
  {
    if a != [] {
      assert (a + b)[0] == a[0];
      assert (a + b)[1..] == a[1..] + b;
      OffsetsConcat(a[1..], b);
    } else {
      assert a + b == b;
    }
  }

  /** Every walk requests the page at its starting offset first, and each further
      request uses a strictly smaller offset: this is why the `while True` loop ends. */
  lemma {:induction false} WalkRequests(h: History, attempt: nat, chat: string, lo: nat, hi: nat, offset: nat)
    requires ValidHistory(h)
    ensures var o := Offsets(Paginate(h, attempt, chat, lo, hi, offset).events);
      |o| >= 1 && o[0] == offset && forall i, j :: 0 <= i < j < |o| ==> o[i] > o[j]
    decreases offset
  {
    var reply := h(attempt, chat, offset);
    if reply.Page? && reply.messages != [] && !ReachesLow(reply.messages, lo) {
      var ms := reply.messages;
      var next := ms[|ms| - 1].id;
      PaginateStep(h, attempt, chat, lo, hi, offset);
      var rest := Paginate(h, attempt, chat, lo, hi, next);
      WalkRequests(h, attempt, chat, lo, hi, next);
      StepOffsets(attempt, offset, rest.events);
      ConsDecreasing(offset, Offsets(rest.events));
    } else {
      LastRequest(h, attempt, chat, lo, hi, offset);
    }
  }

  /** A walk that ends at its first page makes that one request. */
  lemma LastRequest(h: History, attempt: nat, chat: string, lo: nat, hi: nat, offset: nat)
    requires ValidHistory(h)
    requires var reply := h(attempt, chat, offset);
      !(reply.Page? && reply.messages != [] && !ReachesLow(reply.messages, lo))
    ensures Offsets(Paginate(h, attempt, chat, lo, hi, offset).events) == [offset]
  {
    ReplyValid(h, attempt, chat, offset);
    assert Paginate(h, attempt, chat, lo, hi, offset).events == [Request(attempt, offset)];
    assert Offsets([Request(attempt, offset)]) == [offset];
  }

  lemma StepOffsets(attempt: nat, offset: nat, rest: seq<FetchEvent>)
    ensures Offsets([Request(attempt, offset), Pause(1)] + rest) == [offset] + Offsets(rest)
  {
    var step: seq<FetchEvent> := [Request(attempt, offset), Pause(1)];
    assert step[1..] == [Pause(1)];
    assert Offsets([Pause(1)]) == [] + Offsets([]);
    OffsetsConcat(step, rest);
  }

  lemma ConsDecreasing(x: nat, o: seq<nat>)
    requires |o| >= 1 && o[0] < x && forall i, j :: 0 <= i < j < |o| ==> o[i] > o[j]
    ensures forall i, j :: 0 <= i < j < |[x] + o| ==> ([x] + o)[i] > ([x] + o)[j]
  {
    forall i, j | 0 <= i < j < |[x] + o|
      ensures ([x] + o)[i] > ([x] + o)[j]
    {
      assert ([x] + o)[j] == o[j - 1];
      if i > 0 {
        assert ([x] + o)[i] == o[i - 1];
      }
    }
  }

  /** What the attempts end with: a fetched list that is strictly ascending, inside the
      window and older than the starting offset, or, only in the model, running out of
      attempts. */
  lemma {:induction false} AttemptsFetch(h: History, r: Range, first: nat, attempt: nat, fuel: nat)
    requires ValidHistory(h)
    ensures var out := Attempts(h, r, first, attempt, fuel);
      !out.result.Rejected? &&
      (out.result.Fetched? ==>
        StrictlyAscending(out.result.messages) &&
        forall i :: 0 <= i < |out.result.messages| ==>
          r.lo <= out.result.messages[i].id <= r.hi && out.result.messages[i].id < first)
    decreases fuel
  {
    if fuel > 0 {
      var w := Paginate(h, attempt, r.chat, r.lo, r.hi, first);
      WalkCollects(h, attempt, r.chat, r.lo, r.hi, first);
      match w.walk
      case Collected(ms) =>
        SortDescendingIsReverse(ms);
        ReverseFacts(ms);
      case WalkBroken =>
      case WalkThrottled(x) =>
        AttemptsFetch(h, r, first, attempt + 1, fuel - 1);
    }
  }

  /** A fetch either raises one of the two `ValueError`s before making any request, or
      returns messages strictly ascending by id with `min_id <= id < max_id`: as written,
      the walk starts at `max_id` and every page is older than its offset. */
  lemma FetchResultShape(startLink: string, endLink: string, h: History, fuel: nat)
    requires ValidHistory(h)
    ensures var out := FetchSpec(startLink, endLink, h, fuel);
      (out.result.Rejected? <==> CheckLinks(startLink, endLink).Invalid?) &&
      (out.result.Rejected? ==> out.events == [] && out.result.error == CheckLinks(startLink, endLink).error) &&
      (out.result.Fetched? ==>
        StrictlyAscending(out.result.messages) &&
        forall i :: 0 <= i < |out.result.messages| ==>
          CheckLinks(startLink, endLink).range.lo <= out.result.messages[i].id < CheckLinks(startLink, endLink).range.hi)
  {
    var c := CheckLinks(startLink, endLink);
    if c.Valid? {
      AttemptsFetch(h, c.range, c.range.hi, 0, fuel);
    }
  }

  /** The corrected fetch: a result is strictly ascending by id, with
      `min_id <= id <= max_id`; validation is unchanged. */
  lemma CorrectedFetchShape(startLink: string, endLink: string, h: History, fuel: nat)
    requires ValidHistory(h)
    ensures var out := CorrectedFetchSpec(startLink, endLink, h, fuel);
      (out.result.Rejected? <==> CheckLinks(startLink, endLink).Invalid?) &&
      (out.result.Fetched? ==>
        StrictlyAscending(out.result.messages) &&
        forall i :: 0 <= i < |out.result.messages| ==>
          CheckLinks(startLink, endLink).range.lo <= out.result.messages[i].id <= CheckLinks(startLink, endLink).range.hi)
  {
    var c := CheckLinks(startLink, endLink);
    if c.Valid? {
      var first := c.range.hi + 1;
      var out := Attempts(h, c.range, first, 0, fuel);
      assert CorrectedFetchSpec(startLink, endLink, h, fuel) == out;
      AttemptsFetch(h, c.range, first, 0, fuel);
    }
  }

  /** As written, a fetch whose two links name the same message finds nothing, whatever
      the history holds: the window `[id, id]` lies entirely at or above the first offset. */
  lemma SameLinkFindsNothing(link: string, h: History, fuel: nat)
    requires ValidHistory(h)
    ensures var out := FetchSpec(link, link, h, fuel);
      out.result.Fetched? ==> out.result.messages == []
  {
    FetchResultShape(link, link, h, fuel);
    var out := FetchSpec(link, link, h, fuel);
    if out.result.Fetched? {
      var ms := out.result.messages;
      var c := CheckLinks(link, link);
      assert c.range.lo == c.range.hi;
      FirstIsMember(ms);
      if ms != [] {
        assert false;
      }
    }
  }

  lemma FirstIsMember(ms: seq<Message>)
    ensures ms != [] ==> ms[0] in ms
  {
  }

  /** A walk depends only on the answers to its own requests. */
  lemma {:induction false} PaginateAgree(h1: History, h2: History, attempt: nat, chat: string, lo: nat, hi: nat, offset: nat)
    requires ValidHistory(h1) && ValidHistory(h2)
    requires forall o: nat :: h1(attempt, chat, o) == h2(attempt, chat, o)
    ensures Paginate(h1, attempt, chat, lo, hi, offset) == Paginate(h2, attempt, chat, lo, hi, offset)
    decreases offset
  {
    var reply := h1(attempt, chat, offset);
    assert reply == h2(attempt, chat, offset);
    if reply.Page? && reply.messages != [] && !ReachesLow(reply.messages, lo) {
      var next := reply.messages[|reply.messages| - 1].id;
      PaginateStep(h1, attempt, chat, lo, hi, offset);
      PaginateStep(h2, attempt, chat, lo, hi, offset);
      PaginateAgree(h1, h2, attempt, chat, lo, hi, next);
    }
  }

  /** Only the smaller and the larger message id matter, so swapping the two links
      gives the same fetch. */
  lemma SwapLinks(startLink: string, endLink: string, h: History, fuel: nat)
    requires ValidHistory(h)
    ensures FetchSpec(startLink, endLink, h, fuel) == FetchSpec(endLink, startLink, h, fuel)
  {
  }

  /** The two `ValueError`s: the first when a link does not parse or names message 0,
      the second when both are valid but name different chats; otherwise the window
      runs from the smaller of the two ids to the larger, in the first link's chat. */
  lemma CheckLinksCases(startLink: string, endLink: string)
    ensures var s := ParseLink(startLink);
      var e := ParseLink(endLink);
      var c := CheckLinks(startLink, endLink);
      (c == Invalid(InvalidLinks) <==>
        s.None? || e.None? || s.value.messageId == 0 || e.value.messageId == 0) &&
      (c == Invalid(DifferentChats) <==>
        s.Some? && e.Some? && s.value.messageId > 0 && e.value.messageId > 0 && s.value.chat != e.value.chat) &&
      (c.Valid? ==>
        c.range.chat == s.value.chat == e.value.chat &&
        {c.range.lo, c.range.hi} == {s.value.messageId, e.value.messageId} &&
        c.range.lo <= c.range.hi)
  {
  }

  lemma ChatsDiffer(d1: string, w: string)
    requires |w| > 0 && AllIn(Word, w)
    ensures "-100" + d1 != w
  {
    assert ("-100" + d1)[0] == '-';
  }

  /** The chats are compared as text, so a `t.me/c/...` link and a handle link are
      never in the same chat, even when the handle names the same channel; `p1` and
      `p2` are whatever precedes the links, `https://` for instance. */
  lemma ChannelAndHandleDiffer(p1: string, d1: string, d2: string, p2: string, w: string, d3: string)
    requires DotFree(p1) && DotFree(p2)
    requires |d1| > 0 && AllIn(Digit, d1) && |d2| > 0 && AllIn(Digit, d2) && DigitsValue(d2) > 0
    requires |w| > 0 && AllIn(Word, w) && |d3| > 0 && AllIn(Digit, d3) && DigitsValue(d3) > 0
    ensures CheckLinks(p1 + ("t.me/c/" + d1 + "/" + d2), p2 + ("t.me/" + w + "/" + d3)) == Invalid(DifferentChats)
  {
    ChannelLinkParses(p1, d1, d2);
    HandleLinkParses(p2, w, d3);
    ChatsDiffer(d1, w);
    CheckLinksCases(p1 + ("t.me/c/" + d1 + "/" + d2), p2 + ("t.me/" + w + "/" + d3));
  }
}
